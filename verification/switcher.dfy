/**
 * WP_Locale_Switcher: a stack of locales switched to, one `locale` filter callback per locale ever switched to,
 * and a per-locale cache of translation catalogs, operating on the globals of the i18n subsystem.
 */
module Switcher {
  import opened Php
  import opened Storage
  import opened Hooks
  import opened L10n

  /**
   * The globals the switcher reads and writes: `$locale` (what get_locale() starts from), the callbacks of the
   * `locale` filter, `$l10n` (None while it is null) and the locale the current `$wp_locale` object was built for.
   */
  class I18nGlobals {
    var locale: Locale
    var localeHooks: seq<LocaleStorage>
    var l10n: Option<Catalogs>
    var wpLocale: Locale

    constructor (locale: Locale, l10n: Option<Catalogs>)
      ensures this.locale == locale && this.l10n == l10n
      ensures localeHooks == [] && wpLocale == locale
    {
      this.locale := locale;
      this.l10n := l10n;
      localeHooks := [];
      wpLocale := locale;
    }

    /**
     * get_locale(): `$locale` passed through the `locale` filter, that is the locale of the callback registered
     * last, or `$locale` itself when none is registered.
     */
    function GetLocale(): (r: Locale)
      reads this
      ensures r == if localeHooks == [] then locale else localeHooks[|localeHooks| - 1].Get()
    {
      ApplyFilters(locale, localeHooks)
    }
  }

  class LocaleSwitcher {
    const env: I18nGlobals
    const originalLocale: Locale
    var locales: seq<Locale>
    var filters: map<Locale, LocaleStorage>
    var translations: Cache

    /**
     * The switcher's invariant: the original locale is the unfiltered one, the callback for L stores L, at most
     * one callback is registered and it is one of the switcher's, and every cache entry is non-empty.
     */
    ghost predicate Valid()
      reads this, env
    {
      && originalLocale == env.locale
      && (forall l :: l in filters ==> filters[l] == LocaleStorage.New(l))
      && |env.localeHooks| <= 1
      && (env.localeHooks != [] ==> env.localeHooks[0].locale in filters)
      && NoEmptyEntries(translations)
    }

    /** The callbacks registered exactly when the top of the stack is a truthy locale with a callback. */
    ghost predicate Synced()
      reads this, env
    {
      env.localeHooks ==
        if locales != [] && Truthy(locales[|locales| - 1]) && locales[|locales| - 1] in filters
        then [filters[locales[|locales| - 1]]] else []
    }

    /** With the invariant, get_locale() is the locale of the registered callback, or the original locale. */
    lemma CurrentLocale()
      requires Valid()
      ensures env.GetLocale() == if env.localeHooks == [] then originalLocale else env.localeHooks[0].locale
      ensures env.localeHooks != [] ==> env.GetLocale() in filters
    {
    }

    /** __construct(): records the current locale as the original one. */
    constructor (env: I18nGlobals)
      requires env.localeHooks == []
      ensures Valid() && this.env == env
      ensures originalLocale == env.GetLocale()
      ensures locales == [] && filters == map[] && translations == map[]
    {
      this.env := env;
      originalLocale := env.GetLocale();
      locales := [];
      filters := map[];
      translations := map[];
    }

    /** remove_filters(): deregisters the callback of every locale switched to so far. */
    method RemoveFilters()
      requires Valid()
      modifies env`localeHooks
      ensures Valid() && env.localeHooks == []
    {
      var todo := filters.Keys;
      while todo != {}
        invariant todo <= filters.Keys
        invariant |env.localeHooks| <= 1
        invariant env.localeHooks != [] ==> env.localeHooks[0].locale in todo
        decreases todo
      {
        var l :| l in todo;
        ghost var before := env.localeHooks;
        env.localeHooks := RemoveFilter(env.localeHooks, filters[l]);
        if env.localeHooks != [] {
          assert env.localeHooks[0] in env.localeHooks;
          assert before == [before[0]];
          assert env.localeHooks[0] == before[0] != filters[l];
        }
        todo := todo - {l};
      }
    }

    /** add_filter_for_locale( locale ): creates the callback for `locale` once, then registers it. */
    method AddFilterForLocale(locale: Locale)
      requires forall l :: l in filters ==> filters[l] == LocaleStorage.New(l)
      modifies this`filters, env`localeHooks
      ensures filters == old(filters)[locale := LocaleStorage.New(locale)]
      ensures old(filters).Keys <= filters.Keys
      ensures env.localeHooks == AddFilter(old(env.localeHooks), LocaleStorage.New(locale))
    {
      if locale !in filters {
        filters := filters[locale := LocaleStorage.New(locale)];
      }
      env.localeHooks := AddFilter(env.localeHooks, filters[locale]);
    }

    /** The loop that records every loaded catalog under `current` in the cache. */
    method RecordCatalogs(current: Locale)
      requires env.l10n.Some?
      modifies this`translations
      ensures translations == Record(old(translations), current, env.l10n.value)
    {
      var live := env.l10n.value;
      var todo := live.Keys;
      while todo != {}
        invariant todo <= live.Keys
        invariant translations == Record(old(translations), current, Restrict(live, live.Keys - todo))
        decreases todo
      {
        var d :| d in todo;
        ghost var done := live.Keys - todo;
        RecordOneMore(old(translations), current, Restrict(live, done), d, live[d]);
        RestrictOneMore(live, done, d);
        translations := translations[current := EntryOf(translations, current)[d := live[d]]];
        todo := todo - {d};
        assert live.Keys - todo == done + {d};
      }
      assert live.Keys - todo == live.Keys;
      assert Restrict(live, live.Keys) == live;
    }

    /** The loop that gives every loaded domain its catalog cached under `key`, where there is one. */
    method InstallCachedCatalogs(key: Locale)
      modifies env`l10n
      ensures env.l10n == if old(env.l10n).None? then None else Some(Overlay(old(env.l10n).value, EntryOf(translations, key)))
    {
      if env.l10n.None? {
        return;
      }
      var cached := EntryOf(translations, key);
      var todo := env.l10n.value.Keys;
      ghost var live := env.l10n.value;
      OverlayNothing(live, cached);
      assert live.Keys - todo == {};
      while todo != {}
        invariant todo <= live.Keys
        invariant env.l10n == Some(Overlay(live, Restrict(cached, live.Keys - todo)))
        decreases todo
      {
        var d :| d in todo;
        ghost var done := live.Keys - todo;
        OverlayOneMore(live, cached, done, d);
        if d in cached {
          env.l10n := Some(env.l10n.value[d := cached[d]]);
        }
        todo := todo - {d};
        assert live.Keys - todo == done + {d};
      }
      assert live.Keys - todo == live.Keys;
    }

    /**
     * One pass of the loop of a first visit to `locale`, for domain `d` whose catalog at the start of the loop was
     * `live[d]`: `default` is reloaded by the default loader; any other domain is unloaded, loaded again from its
     * catalog's file when it has one, and what is then loaded is cached.
     */
    method ReloadDomain(ghost live: Catalogs, d: Domain, locale: Locale, loader: Loader)
      requires d in live && env.l10n.Some? && d in env.l10n.value && env.l10n.value[d] == live[d]
      requires env.GetLocale() == locale
      modifies this`translations, env`l10n
      ensures env.l10n == Some(match Reloaded(live, d, locale, loader)
                               case Some(c) => old(env.l10n).value[d := c]
                               case None => old(env.l10n).value - {d})
      ensures translations ==
        if d == DefaultDomain then old(translations)
        else old(translations)[locale := EntryOf(old(translations), locale)[d := Reloaded(live, d, locale, loader).GetOr(Noop)]]
    {
      var mo := env.l10n.value[d];
      if d == DefaultDomain {
        var loaded := loader.loadDefaultTextdomain(env.GetLocale());
        env.l10n := Some(if loaded.Some? then env.l10n.value[d := loaded.value] else env.l10n.value - {d});
      } else {
        env.l10n := Some(env.l10n.value - {d});
        var file := FileName(mo);
        if Truthy(file) {
          var loaded := loader.loadTextdomain(d, file);
          if loaded.Some? {
            env.l10n := Some(env.l10n.value[d := loaded.value]);
            assert env.l10n.value == old(env.l10n).value[d := loaded.value];
          }
        }
        translations := translations[locale := EntryOf(translations, locale)[d := TranslationsFor(env.l10n.value, d)]];
      }
    }

    /**
     * The loop of a first visit to `locale`: every loaded domain is reloaded, and every one but `default` cached.
     */
    method ReloadCatalogs(locale: Locale, loader: Loader)
      requires env.l10n.Some? && env.GetLocale() == locale
      modifies this`translations, env`l10n
      ensures env.l10n == Some(ReloadedOn(old(env.l10n).value, old(env.l10n).value.Keys, locale, loader))
      ensures translations == Record(old(translations), locale, FreshOn(old(env.l10n).value, old(env.l10n).value.Keys, locale, loader))
    {
      var live := env.l10n.value;
      var todo := live.Keys;
      ReloadedNothing(live, locale, loader);
      assert live.Keys - todo == {};
      while todo != {}
        invariant todo <= live.Keys
        invariant env.l10n == Some(ReloadedOn(live, live.Keys - todo, locale, loader))
        invariant translations == Record(old(translations), locale, FreshOn(live, live.Keys - todo, locale, loader))
        decreases todo
      {
        var d :| d in todo;
        ghost var done := live.Keys - todo;
        ReloadedOneMore(live, done, d, locale, loader);
        RecordOneMore(old(translations), locale, FreshOn(live, done, locale, loader), d, Reloaded(live, d, locale, loader).GetOr(Noop));
        ReloadDomain(live, d, locale, loader);
        todo := todo - {d};
        assert live.Keys - todo == done + {d};
      }
      assert live.Keys - todo == live.Keys;
    }

    /**
     * The part of a switch that follows the push once `$l10n` is known to be set: record the catalogs of
     * `current` unless cached, register the callback for `locale` alone, install the catalogs of `locale`
     * (from the cache, or by reloading every domain) and rebuild `$wp_locale`.
     */
    method SwitchTranslations(current: Locale, locale: Locale, loader: Loader)
      requires Valid() && env.l10n.Some? && current != locale
      modifies this`translations, this`filters, env`localeHooks, env`l10n, env`wpLocale
      ensures Valid()
      ensures filters == old(filters)[locale := LocaleStorage.New(locale)]
      ensures env.localeHooks == [LocaleStorage.New(locale)] && env.wpLocale == locale
      ensures translations == Switched(old(translations), current, locale, old(env.l10n).value, loader).cache
      ensures env.l10n == Some(Switched(old(translations), current, locale, old(env.l10n).value, loader).live)
    {
      ghost var live := env.l10n.value;
      ghost var switched := Switched(old(translations), current, locale, live, loader);
      if !HasTranslations(translations, current) {
        RecordCatalogs(current);
        RecordKeepsEntriesNonEmpty(old(translations), current, live);
      }
      assert translations == Left(old(translations), current, live);
      RemoveFilters();
      AddFilterForLocale(locale);
      assert env.localeHooks == [LocaleStorage.New(locale)];
      if HasTranslations(translations, locale) {
        InstallCachedCatalogs(locale);
        assert env.l10n == Some(switched.live);
      } else {
        ReloadCatalogs(locale, loader);
        RecordKeepsEntriesNonEmpty(Left(old(translations), current, live), locale, FreshOn(live, live.Keys, locale, loader));
        assert env.l10n == Some(switched.live);
      }
      assert translations == switched.cache;
      env.wpLocale := env.GetLocale();
    }

    /**
     * switch_to_locale( locale ): `locale` when it already is the current locale; false when it is not an
     * available language; false, with `locale` already pushed, when `$l10n` is null; otherwise pushes it, records
     * the catalogs of the locale left, registers the callback for `locale` alone, installs its catalogs, rebuilds
     * `$wp_locale` and answers `locale`.
     */
    method SwitchToLocale(locale: Locale, available: set<Locale>, loader: Loader) returns (r: Option<Locale>)
      requires Valid()
      modifies this, env
      ensures Valid()
      ensures old(env.GetLocale()) == locale ==> r == Some(locale) && unchanged(this, env)
      ensures old(env.GetLocale()) != locale && locale !in available ==> r == None && unchanged(this, env)
      ensures old(env.GetLocale()) != locale && locale in available && old(env.l10n).None? ==>
        && r == None && locales == old(locales) + [locale]
        && filters == old(filters) && translations == old(translations) && unchanged(env)
      ensures old(env.GetLocale()) != locale && locale in available && old(env.l10n).Some? ==>
        && r == Some(locale) && locales == old(locales) + [locale]
        && filters == old(filters)[locale := LocaleStorage.New(locale)]
        && env.localeHooks == [LocaleStorage.New(locale)]
        && env.GetLocale() == locale && env.wpLocale == locale && env.locale == old(env.locale)
        && translations == Switched(old(translations), old(env.GetLocale()), locale, old(env.l10n).value, loader).cache
        && env.l10n == Some(Switched(old(translations), old(env.GetLocale()), locale, old(env.l10n).value, loader).live)
      ensures old(filters).Keys <= filters.Keys
      ensures r.Some? && Truthy(locale) && (old(env.GetLocale()) != locale || old(Synced())) ==> Synced()
    {
      var current := env.GetLocale();
      if current == locale {
        return Some(locale);
      }
      if locale !in available {
        return None;
      }
      // Pushed before the check below, so a switch that fails there still leaves its entry.
      locales := locales + [locale];
      if env.l10n.None? {
        return None;
      }
      SwitchTranslations(current, locale, loader);
      r := Some(locale);
    }

    /**
     * restore_locale( reset ): false on an empty stack. Otherwise pops one entry (false if it was falsy), deregisters
     * the callback, and answers the original locale when `reset`, else the new top of the stack (false when the
     * stack is now empty), whose callback it registers again if it has one; the catalogs cached for that answer are
     * installed and `$wp_locale` is rebuilt.
     */
    method RestoreLocale(reset: bool) returns (r: Option<Locale>)
      requires Valid()
      modifies this, env
      ensures Valid()
      ensures old(locales) == [] ==> r == None && unchanged(this, env)
      ensures old(locales) != [] ==> locales == old(locales)[..|old(locales)| - 1]
      ensures old(locales) != [] && !Truthy(old(locales)[|old(locales)| - 1]) ==>
        r == None && filters == old(filters) && translations == old(translations) && unchanged(env)
      ensures old(locales) != [] && Truthy(old(locales)[|old(locales)| - 1]) ==>
        && r == (if reset then Some(originalLocale) else if locales == [] then None else Some(locales[|locales| - 1]))
        && env.localeHooks ==
             (if !reset && locales != [] && Truthy(locales[|locales| - 1]) && locales[|locales| - 1] in filters
              then [filters[locales[|locales| - 1]]] else [])
        && env.l10n == (if old(env.l10n).None? then None
                        else Some(Overlay(old(env.l10n).value, EntryOf(translations, if r.Some? then r.value else FalseKey))))
        && env.wpLocale == env.GetLocale() && env.locale == old(env.locale)
        && filters == old(filters) && translations == old(translations)
      ensures old(locales) != [] && Truthy(old(locales)[|old(locales)| - 1]) && !reset ==> Synced()
      ensures r.Some? && (reset || (Truthy(r.value) && r.value in filters)) ==> env.GetLocale() == r.value
    {
      if locales == [] {
        return None;
      }
      var popped := locales[|locales| - 1];
      locales := locales[..|locales| - 1];
      if !Truthy(popped) {
        return None;
      }
      r := Some(originalLocale);
      RemoveFilters();
      if !reset {
        // `$locale = end( $this->locales )`: false on an empty stack, and it replaces the answer either way.
        r := if locales == [] then None else Some(locales[|locales| - 1]);
        if r.Some? && Truthy(r.value) {
          if r.value in filters {
            env.localeHooks := AddFilter(env.localeHooks, filters[r.value]);
          }
        }
      }
      InstallCachedCatalogs(if r.Some? then r.value else FalseKey);
      env.wpLocale := env.GetLocale();
      CurrentLocale();
    }
  }

  /**
   * One switch and one restore: while the registered callback agrees with the stack, a successful switch to a
   * locale other than the top, followed by restore_locale(), gives back the stack and the current locale. The
   * answer of the restore is the previous top, or false when the stack was empty before the switch. Such pairs
   * do not nest in general: SwitchLocaleTraces.NestedPairsDoNotCompose shows two of them that end elsewhere.
   */
  method SwitchThenRestore(switcher: LocaleSwitcher, locale: Locale, available: set<Locale>, loader: Loader)
    returns (switched: Option<Locale>, restored: Option<Locale>)
    requires switcher.Valid() && switcher.Synced()
    requires switcher.env.GetLocale() != locale && locale in available && Truthy(locale) && switcher.env.l10n.Some?
    requires switcher.locales == [] || switcher.locales[|switcher.locales| - 1] != locale
    modifies switcher, switcher.env
    ensures switcher.Valid() && switcher.Synced()
    ensures switched == Some(locale)
    ensures restored == if old(switcher.locales) == [] then None else Some(old(switcher.locales)[|old(switcher.locales)| - 1])
    ensures switcher.locales == old(switcher.locales)
    ensures switcher.env.GetLocale() == old(switcher.env.GetLocale())
  {
    switched := switcher.SwitchToLocale(locale, available, loader);
    assert switcher.locales[|switcher.locales| - 1] == locale;
    restored := switcher.RestoreLocale(false);
  }
}
