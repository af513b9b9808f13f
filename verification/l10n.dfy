/**
 * Translation catalogs as the locale switcher sees them: the live catalogs of the global `$l10n`, the switcher's
 * per-locale cache of them, and pure descriptions of what the switcher's three `foreach` loops leave behind.
 * Catalogs are opaque tokens; the file-loading functions are parameters (a Loader).
 */
module L10n {
  import opened Php

  type Domain = string
  type Locale = string

  /**
   * A translation catalog handle. `Noop` is the shared NOOP_Translations object that get_translations_for_domain
   * hands out for a domain with nothing loaded; `Mo` is a catalog read from a file, `filename` being what its
   * get_filename() answers.
   */
  datatype Catalog = Noop | Mo(id: nat, filename: string)

  /** `$l10n`: text domain to loaded catalog. */
  type Catalogs = map<Domain, Catalog>

  /** The switcher's `$translations`: locale to text domain to catalog. */
  type Cache = map<Locale, Catalogs>

  /**
   * The catalog loaders the switcher calls, as functions of their inputs.
   * loadTextdomain(d, file): what load_textdomain( d, file ) leaves in `$l10n[d]` once d has been unloaded
   * (None: the file did not load). loadDefaultTextdomain(locale): what load_default_textdomain() leaves in
   * `$l10n['default']` while `locale` is the current locale.
   */
  datatype Loader = Loader(
    loadTextdomain: (Domain, string) -> Option<Catalog>,
    loadDefaultTextdomain: Locale -> Option<Catalog>)

  const DefaultDomain: Domain := "default"

  /** `$mo->get_filename()`. */
  function FileName(c: Catalog): string {
    match c
    case Noop => ""
    case Mo(_, file) => file
  }

  /** get_translations_for_domain( domain ): the loaded catalog, or the no-op one. */
  function TranslationsFor(live: Catalogs, domain: Domain): Catalog {
    if domain in live then live[domain] else Noop
  }

  /** has_translations_for_locale( locale ): `! empty( $this->translations[ locale ] )`. */
  predicate HasTranslations(cache: Cache, locale: Locale) {
    locale in cache && cache[locale] != map[]
  }

  /** `$this->translations[ locale ]`, absent read as empty. */
  function EntryOf(cache: Cache, locale: Locale): Catalogs {
    if locale in cache then cache[locale] else map[]
  }

  function Restrict(m: Catalogs, domains: set<Domain>): Catalogs {
    map d | d in m && d in domains :: m[d]
  }

  /**
   * The cache after `$this->translations[ locale ][ d ] = entry[ d ]` for every d of entry.
   * PHP creates the inner array on the first write only, so an empty entry leaves the cache as it was.
   */
  function Record(cache: Cache, locale: Locale, entry: Catalogs): Cache {
    if entry == map[] then cache else cache[locale := EntryOf(cache, locale) + entry]
  }

  /** `$l10n` after every loaded domain that has a catalog in `cached` has been given it. */
  function Overlay(live: Catalogs, cached: Catalogs): Catalogs {
    map d | d in live :: if d in cached then cached[d] else live[d]
  }

  /**
   * The new `$l10n[d]` once domain d has been reloaded for `locale`: `default` through the default loader,
   * any other domain from the file of its current catalog when that name is truthy; None when nothing is loaded.
   */
  function Reloaded(live: Catalogs, d: Domain, locale: Locale, loader: Loader): Option<Catalog>
    requires d in live
  {
    if d == DefaultDomain then loader.loadDefaultTextdomain(locale)
    else if Truthy(FileName(live[d])) then loader.loadTextdomain(d, FileName(live[d]))
    else None
  }

  /** `$l10n` once the domains in `done` (of those loaded in `live`) have been reloaded. */
  function ReloadedOn(live: Catalogs, done: set<Domain>, locale: Locale, loader: Loader): Catalogs {
    map d | d in live && (d in done ==> Reloaded(live, d, locale, loader).Some?) ::
      if d in done then Reloaded(live, d, locale, loader).value else live[d]
  }

  /** The catalogs cached for `locale` once the domains in `done` have been reloaded; `default` is never cached. */
  function FreshOn(live: Catalogs, done: set<Domain>, locale: Locale, loader: Loader): Catalogs {
    map d | d in live && d in done && d != DefaultDomain :: Reloaded(live, d, locale, loader).GetOr(Noop)
  }

  /** Every entry of the cache holds at least one catalog. */
  ghost predicate NoEmptyEntries(cache: Cache) {
    forall l :: l in cache ==> cache[l] != map[]
  }

  /** Cache and live catalogs together. */
  datatype Catalogued = Catalogued(cache: Cache, live: Catalogs)

  /** The cache once the catalogs of the locale being left have been recorded, unless that locale already has some. */
  function Left(cache: Cache, current: Locale, live: Catalogs): Cache {
    if HasTranslations(cache, current) then cache else Record(cache, current, live)
  }

  /**
   * What a successful switch from `current` to `target` does to the cache and to `$l10n`: record the catalogs
   * of `current`, then either install the cached catalogs of `target` or reload every domain and cache the result.
   */
  function Switched(cache: Cache, current: Locale, target: Locale, live: Catalogs, loader: Loader): Catalogued {
    var left := Left(cache, current, live);
    if HasTranslations(left, target) then
      Catalogued(left, Overlay(live, left[target]))
    else
      Catalogued(Record(left, target, FreshOn(live, live.Keys, target, loader)), ReloadedOn(live, live.Keys, target, loader))
  }

  /** Installing cached catalogs keeps the set of loaded domains; an uncached domain keeps its catalog. */
  lemma OverlayKeepsDomains(live: Catalogs, cached: Catalogs)
    ensures Overlay(live, cached).Keys == live.Keys
    ensures forall d :: d in live && d in cached ==> Overlay(live, cached)[d] == cached[d]
    ensures forall d :: d in live && d !in cached ==> Overlay(live, cached)[d] == live[d]
  {
  }

  /** Installing the same cached catalogs twice is the same as once. */
  lemma OverlayIdempotent(live: Catalogs, cached: Catalogs)
    ensures Overlay(Overlay(live, cached), cached) == Overlay(live, cached)
  {
    var once := Overlay(live, cached);
    assert Overlay(once, cached).Keys == once.Keys;
    forall d | d in once
      ensures Overlay(once, cached)[d] == once[d]
    {
    }
  }

  /**
   * Round trip of leave and return: catalogs recorded as `snapshot` and installed again later give back the
   * recorded catalog of every domain still loaded, whatever the later catalogs were.
   */
  lemma OverlayRestoresSnapshot(snapshot: Catalogs, later: Catalogs)
    requires later.Keys <= snapshot.Keys
    ensures Overlay(later, snapshot) == Restrict(snapshot, later.Keys)
  {
    var r := Overlay(later, snapshot);
    assert r.Keys == Restrict(snapshot, later.Keys).Keys;
    forall d | d in r
      ensures r[d] == Restrict(snapshot, later.Keys)[d]
    {
    }
  }

  /** Recording keeps every non-empty entry of another locale, and makes `locale` cached iff something was recorded. */
  lemma RecordKeepsOtherEntries(cache: Cache, locale: Locale, entry: Catalogs)
    ensures forall l :: l != locale && l in cache ==> l in Record(cache, locale, entry) && Record(cache, locale, entry)[l] == cache[l]
    ensures HasTranslations(Record(cache, locale, entry), locale) <==> HasTranslations(cache, locale) || entry != map[]
  {
    if entry != map[] {
      var k :| k in entry;
      assert k in Record(cache, locale, entry)[locale];
    }
  }

  /** Recording never leaves an empty entry behind. */
  lemma RecordKeepsEntriesNonEmpty(cache: Cache, locale: Locale, entry: Catalogs)
    requires NoEmptyEntries(cache)
    ensures NoEmptyEntries(Record(cache, locale, entry))
  {
    if entry != map[] {
      var k :| k in entry;
      assert k in Record(cache, locale, entry)[locale];
    }
  }

  /**
   * A switch never overwrites a non-empty cache entry, and afterwards the locale that was left has one
   * unless no domain was loaded.
   */
  lemma SwitchedKeepsCachedEntries(cache: Cache, current: Locale, target: Locale, live: Catalogs, loader: Loader)
    requires current != target
    ensures var r := Switched(cache, current, target, live, loader).cache;
      && (forall l :: HasTranslations(cache, l) ==> l in r && r[l] == cache[l])
      && (HasTranslations(r, current) <==> HasTranslations(cache, current) || live != map[])
      && (!HasTranslations(cache, current) && live != map[] ==> r[current] == EntryOf(cache, current) + live)
  {
    var left := Left(cache, current, live);
    RecordKeepsOtherEntries(cache, current, live);
    if !HasTranslations(left, target) {
      RecordKeepsOtherEntries(left, target, FreshOn(live, live.Keys, target, loader));
    }
  }

  /**
   * Switching to a cached locale replaces exactly the loaded domains it has catalogs for; the loaded domains
   * stay the same.
   */
  lemma SwitchedToCachedLocale(cache: Cache, current: Locale, target: Locale, live: Catalogs, loader: Loader)
    requires current != target
    requires HasTranslations(cache, target)
    ensures var r := Switched(cache, current, target, live, loader);
      && r.live.Keys == live.Keys
      && (forall d :: d in live && d in cache[target] ==> r.live[d] == cache[target][d])
      && (forall d :: d in live && d !in cache[target] ==> r.live[d] == live[d])
  {
    RecordKeepsOtherEntries(cache, current, live);
  }

  /**
   * A first visit to a locale reloads every loaded domain and caches, under that locale, what is loaded
   * afterwards for every domain but `default`, which is never cached.
   */
  lemma SwitchedFirstVisit(cache: Cache, current: Locale, target: Locale, live: Catalogs, loader: Loader)
    requires current != target
    requires !HasTranslations(cache, target)
    ensures var r := Switched(cache, current, target, live, loader);
      && r.live.Keys <= live.Keys
      && (forall d :: d in live ==> (d in r.live <==> Reloaded(live, d, target, loader).Some?))
      && (DefaultDomain !in EntryOf(cache, target) ==> DefaultDomain !in EntryOf(r.cache, target))
      && (forall d :: d in live && d != DefaultDomain ==> d in EntryOf(r.cache, target) && EntryOf(r.cache, target)[d] == TranslationsFor(r.live, d))
  {
    var left := Left(cache, current, live);
    RecordKeepsOtherEntries(cache, current, live);
    assert !HasTranslations(left, target);
    var entry := FreshOn(live, live.Keys, target, loader);
    var r := Switched(cache, current, target, live, loader);
    assert r.cache == Record(left, target, entry);
    assert EntryOf(r.cache, target) == EntryOf(left, target) + entry;
  }

  /**
   * has_translations_for_locale( locale ) holds exactly when some catalog is cached for `locale`; with no empty
   * entry in the cache, exactly when `locale` has an entry at all.
   */
  lemma HasTranslationsMeansSomeCatalog(cache: Cache, locale: Locale)
    ensures HasTranslations(cache, locale) <==> exists d :: d in EntryOf(cache, locale)
    ensures NoEmptyEntries(cache) ==> (HasTranslations(cache, locale) <==> locale in cache)
  {
    if HasTranslations(cache, locale) {
      var d :| d in cache[locale];
      assert d in EntryOf(cache, locale);
    }
  }

  /**
   * After every loaded domain has been reloaded, get_translations_for_domain( d ) answers the catalog the reload
   * loaded, or the no-op catalog when it loaded nothing; for every domain but `default` that is what is cached.
   */
  lemma TranslationsForReloaded(live: Catalogs, d: Domain, locale: Locale, loader: Loader)
    requires d in live
    ensures TranslationsFor(ReloadedOn(live, live.Keys, locale, loader), d) == Reloaded(live, d, locale, loader).GetOr(Noop)
    ensures d != DefaultDomain ==>
      FreshOn(live, live.Keys, locale, loader)[d] == TranslationsFor(ReloadedOn(live, live.Keys, locale, loader), d)
  {
  }

  // The lemmas below take the switcher's loops one domain at a time.

  lemma RecordOneMore(cache: Cache, locale: Locale, entry: Catalogs, d: Domain, c: Catalog)
    ensures var t := Record(cache, locale, entry);
      Record(cache, locale, entry[d := c]) == t[locale := EntryOf(t, locale)[d := c]]
  {
    var t := Record(cache, locale, entry);
    assert d in entry[d := c];
    assert EntryOf(t, locale)[d := c] == EntryOf(cache, locale) + entry[d := c];
  }

  lemma RestrictOneMore(m: Catalogs, done: set<Domain>, d: Domain)
    requires d in m
    ensures Restrict(m, done + {d}) == Restrict(m, done)[d := m[d]]
  {
  }

  lemma OverlayNothing(live: Catalogs, cached: Catalogs)
    ensures Overlay(live, Restrict(cached, {})) == live
    ensures Overlay(live, Restrict(cached, live.Keys)) == Overlay(live, cached)
  {
    assert Restrict(cached, {}) == map[];
  }

  lemma OverlayOneMore(live: Catalogs, cached: Catalogs, done: set<Domain>, d: Domain)
    requires d in live
    ensures Overlay(live, Restrict(cached, done + {d})) ==
      if d in cached then Overlay(live, Restrict(cached, done))[d := cached[d]] else Overlay(live, Restrict(cached, done))
  {
  }

  lemma ReloadedNothing(live: Catalogs, locale: Locale, loader: Loader)
    ensures ReloadedOn(live, {}, locale, loader) == live
    ensures FreshOn(live, {}, locale, loader) == map[]
  {
  }

  lemma ReloadedOneMore(live: Catalogs, done: set<Domain>, d: Domain, locale: Locale, loader: Loader)
    requires d in live && d !in done
    ensures var before := ReloadedOn(live, done, locale, loader);
      && d in before
      && ReloadedOn(live, done + {d}, locale, loader) ==
           (match Reloaded(live, d, locale, loader)
            case Some(c) => before[d := c]
            case None => before - {d})
    ensures d != DefaultDomain ==>
      FreshOn(live, done + {d}, locale, loader) == FreshOn(live, done, locale, loader)[d := Reloaded(live, d, locale, loader).GetOr(Noop)]
    ensures d == DefaultDomain ==> FreshOn(live, done + {d}, locale, loader) == FreshOn(live, done, locale, loader)
  {
  }
}
