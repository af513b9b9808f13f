# WordPress locale switcher, modelled in Dafny

This project models `WP_Locale_Switcher`, the WordPress i18n component that temporarily switches the site to another
locale and back, together with `WP_Locale_Storage`, the value object whose `get` method serves as the switcher's
`locale` filter callback.

The switcher keeps four pieces of state:

- the original locale;
- a stack of the locales switched to;
- one filter callback per locale ever switched to;
- a per-locale cache of translation catalogs, keyed by text domain.

It also rewrites three globals:

- the callbacks of the `locale` filter, which decide what `get_locale()` answers;
- `$l10n`, the loaded catalog of every text domain;
- `$wp_locale`.

Modules:

- `Php` — the PHP notions the code relies on:
  - `T|false` answers, as `Option`;
  - string truthiness: `""` and `"0"` are false;
  - the key `false`, which PHP stores as `0` and so shares a slot with `"0"`.
- `Storage` — `WP_Locale_Storage` as an immutable datatype.
- `Hooks` — the `locale` filter:
  - its callback list;
  - `add_filter`, which adds a callback once;
  - `remove_filter`;
  - `apply_filters`, which chains the callbacks.
- `L10n` — the catalogs and the per-locale cache:
  - catalogs are opaque tokens;
  - the catalog loaders `load_textdomain` and `load_default_textdomain` are a `Loader` value of two functions;
  - `get_translations_for_domain` is the fixed lookup `TranslationsFor`: the loaded catalog, or the no-op one;
  - `has_translations_for_locale` is the predicate `HasTranslations` over the cache;
  - pure functions state what each of the switcher's `foreach` loops computes, with lemmas about them.
- `Switcher` — two classes:
  - `I18nGlobals` holds the globals;
  - `LocaleSwitcher` holds the switcher's own fields. Its methods are the constructor, `switch_to_locale`, `restore_locale`, `remove_filters` and `add_filter_for_locale`, plus:
    - one method for each loop over `$l10n`: `RecordCatalogs`, `InstallCachedCatalogs` and `ReloadCatalogs`. `ReloadCatalogs` hands each pass to `ReloadDomain`. Each loop is a `while` loop proved against the corresponding `L10n` function;
    - `SwitchTranslations`, the part of `switch_to_locale` after the stack push once `$l10n` is known to be set.
- `SwitchLocaleTraces` — the scenarios of the unit test file, stated as calls on the model, with their answers proved.

`get_locale()` is `$locale` passed through the `locale` filter. Each callback of the switcher returns its own
locale, so `get_locale()` is the locale of the last callback registered, or `$locale` when none is registered.

## Model

| member | source | states |
|---|---|---|
| Storage.LocaleStorage.New | src/wp-includes/class-wp-locale-storage.php:31-46 | `get()` on a new storage returns exactly the locale it was constructed with |
| Storage.FilterIgnoresItsInput | src/wp-includes/class-wp-locale-storage.php:43-46 | used as a filter, a storage returns its own locale whatever value is passed in; the switcher's callback for L always yields L |
| Hooks.AddFilter | src/wp-includes/class-wp-locale-switcher.php:241 | afterwards the callback is registered and nothing else is added; a callback already present leaves the list unchanged, otherwise it is appended last |
| Hooks.RemoveFilter | src/wp-includes/class-wp-locale-switcher.php:220-222 | removes exactly that callback and keeps every other one; the list never grows; removing an absent callback changes nothing |
| Hooks.ApplyFilters | src/wp-includes/class-wp-locale-storage.php:43-46 | because each callback ignores its input, the filtered value is the last registered callback's locale, or the unfiltered value when none is registered |
| Switcher.I18nGlobals.GetLocale | src/wp-includes/class-wp-locale-switcher.php:91 | `get_locale()` is the locale of the callback registered last on the `locale` filter, or `$locale` when none is registered |
| Switcher.LocaleSwitcher.CurrentLocale | src/wp-includes/class-wp-locale-switcher.php:53-56 | under the switcher's invariant, `get_locale()` is the registered callback's locale, and that locale has a callback in `$filters`; with no callback it is the original locale |
| Switcher.LocaleSwitcher.constructor | src/wp-includes/class-wp-locale-switcher.php:53-56 | the original locale is what `get_locale()` reports at construction; the stack, filters and cache start empty; the invariant holds |
| Switcher.LocaleSwitcher.RemoveFilters | src/wp-includes/class-wp-locale-switcher.php:218-223 | afterwards no switcher callback is registered; the invariant is kept |
| Switcher.LocaleSwitcher.AddFilterForLocale | src/wp-includes/class-wp-locale-switcher.php:232-242 | `$filters` gains the callback for the locale, created once and never replaced, and keeps every key; that callback is registered once |
| Switcher.LocaleSwitcher.RecordCatalogs | src/wp-includes/class-wp-locale-switcher.php:115-119 | the loop caches the catalog of every loaded domain under the current locale, adding to what that locale had cached |
| Switcher.LocaleSwitcher.InstallCachedCatalogs | src/wp-includes/class-wp-locale-switcher.php:125-130 | each loaded domain with a catalog cached under the key gets that catalog; other domains keep theirs; a null `$l10n` stays null |
| Switcher.LocaleSwitcher.ReloadCatalogs | src/wp-includes/class-wp-locale-switcher.php:131-147 | `default` is reloaded by the default loader and never cached; every other domain is unloaded, reloaded from its file when the name is truthy, and the result is cached under the new locale |
| Switcher.LocaleSwitcher.ReloadDomain | src/wp-includes/class-wp-locale-switcher.php:132-146 | one pass of the first-visit loop: `default` gets the default loader's catalog, or is dropped when it loads nothing, and the cache is untouched; any other domain gets the catalog loaded from its file (dropped when the name is falsy or nothing loads) and that answer, or the no-op catalog, is cached under the locale |
| Switcher.LocaleSwitcher.SwitchTranslations | src/wp-includes/class-wp-locale-switcher.php:113-154 | records the catalogs of the locale left unless it is cached; registers only the new locale's callback; installs cached or reloaded catalogs; rebuilds `$wp_locale` for the new locale; keeps the invariant |
| Switcher.LocaleSwitcher.SwitchToLocale | src/wp-includes/class-wp-locale-switcher.php:89-155 | the current locale gives that locale and changes nothing; an unavailable locale gives false and changes nothing; with `$l10n` null it gives false but the stack has grown by the locale; a success pushes once, returns the locale, leaves only its callback registered, makes it `get_locale()`, only adds keys to `$filters`, and sets cache and `$l10n` as `L10n.Switched` says |
| Switcher.LocaleSwitcher.RestoreLocale | src/wp-includes/class-wp-locale-switcher.php:165-198 | an empty stack gives false and changes nothing; otherwise exactly one entry is popped; a falsy entry gives false; with reset it answers the original locale; without reset it answers the new top, or false when the stack is now empty, and re-registers that locale's callback if it has one; the cached catalogs of the answer, or of key `false`, are installed; `get_locale()` equals the answer whenever a callback backs it |
| Switcher.SwitchThenRestore | src/wp-includes/class-wp-locale-switcher.php:89-198 | when the registered callback agrees with the stack (`Synced`) and the locale switched to is not the top of the stack, a successful switch followed by `restore_locale()` gives back the stack and `get_locale()`, and answers the previous top, or false from an empty stack; `SwitchLocaleTraces.SwitchOntoStaleEntry` shows the round trip failing when the top already is that locale, and `SwitchLocaleTraces.NestedPairsDoNotCompose` shows that two nested pairs need not give back the starting locale |
| L10n.HasTranslationsMeansSomeCatalog | src/wp-includes/class-wp-locale-switcher.php:208-211 | `has_translations_for_locale` holds exactly when some catalog is cached for the locale; with no empty entry in the cache, exactly when the locale has an entry |
| L10n.TranslationsForReloaded | src/wp-includes/class-wp-locale-switcher.php:139-145 | after the reload, `get_translations_for_domain` answers the catalog loaded, or the no-op catalog when nothing was loaded; for every domain but `default` that answer is what is cached |
| L10n.OverlayKeepsDomains | src/wp-includes/class-wp-locale-switcher.php:125-130 | installing cached catalogs keeps the set of loaded domains; cached domains take the cached catalog, the others keep theirs |
| L10n.OverlayIdempotent | src/wp-includes/class-wp-locale-switcher.php:186-190 | installing the same cached catalogs twice is the same as once |
| L10n.OverlayRestoresSnapshot | src/wp-includes/class-wp-locale-switcher.php:115-130 | catalogs recorded when a locale is left and installed again on return give back the recorded catalog of every domain still loaded |
| L10n.RecordKeepsOtherEntries | src/wp-includes/class-wp-locale-switcher.php:115-119 | recording under one locale keeps every other locale's entry; the locale is cached afterwards iff it was before or something was recorded |
| L10n.RecordKeepsEntriesNonEmpty | src/wp-includes/class-wp-locale-switcher.php:208-211 | recording never leaves an empty cache entry, so a cached locale always has catalogs |
| L10n.SwitchedKeepsCachedEntries | src/wp-includes/class-wp-locale-switcher.php:113-147 | a switch never overwrites a non-empty entry; the locale left is cached afterwards iff it was before or some domain was loaded; if it was not cached, its entry becomes the catalogs loaded at the switch |
| L10n.SwitchedToCachedLocale | src/wp-includes/class-wp-locale-switcher.php:125-130 | switching to a cached locale replaces exactly the loaded domains it has catalogs for, and keeps the set of loaded domains |
| L10n.SwitchedFirstVisit | src/wp-includes/class-wp-locale-switcher.php:131-147 | on a first visit a domain stays loaded iff its reload succeeds; every domain except `default` is cached as loaded afterwards (no-op catalog if unloaded); `default` is never cached |
| SwitchLocaleTraces.SwitchWithoutTranslations | tests/phpunit/tests/locale/class-wp-switch-locale.php:9-56 | the switches of test :9-12 and :52-56: with `$l10n` null the switches to es_ES and en_GB both answer false, both locales stay on the stack, and `get_locale()` stays the original |
| SwitchLocaleTraces.SwitchesToEs | tests/phpunit/tests/locale/class-wp-switch-locale.php:14-31 | the switches to es_ES, en_GB and en_GB again answer those locales, and `get_locale()` follows, whatever catalogs and loaders |
| SwitchLocaleTraces.RestoresAfterSwitches | tests/phpunit/tests/locale/class-wp-switch-locale.php:33-43 | after those switches, `restore_locale()` answers es_ES, `restore_locale( true )` answers en_US, a switch to xx_XX answers xx_XX, and `get_locale()` follows |
| SwitchLocaleTraces.FirstSwitchToEs | tests/phpunit/tests/locale/class-wp-switch-locale.php:14-20 | the test's first switch caches the en_US catalogs and reloads the test domain from its file, caching it under es_ES |
| SwitchLocaleTraces.RestoreToOriginal | src/wp-includes/class-wp-locale-switcher.php:171-190 | restoring the only entry answers false; `get_locale()` is the original locale again, but the es_ES catalogs stay loaded |
| SwitchLocaleTraces.RestoreToStaleEntry | src/wp-includes/class-wp-locale-switcher.php:100-111 | an entry left on the stack by a failed switch has no callback; restoring to it answers that locale while `get_locale()` stays the original |
| SwitchLocaleTraces.SwitchOntoStaleEntry | src/wp-includes/class-wp-locale-switcher.php:100-177 | after a failed switch to es_ES, a successful one pushes es_ES a second time; `restore_locale()` then answers es_ES, registers its callback again and leaves `get_locale()` at es_ES, with es_ES still on the stack |
| SwitchLocaleTraces.NestedPairsDoNotCompose | src/wp-includes/class-wp-locale-switcher.php:165-198 | after a failed switch to es_ES leaves it on the stack, switches to en_GB and to es_ES followed by two `restore_locale()` calls answer en_GB then es_ES and end with `get_locale()` at es_ES, not en_US, with es_ES still on the stack: the callback the inner switch created for es_ES is registered again |

## Left out

- `WP_Locale_Switcher::load` (src/wp-includes/class-wp-locale-switcher.php:58-79) is not modelled. It downloads language packs, does `require_once` and calls methods the class does not have.
- `load_textdomain` and `load_default_textdomain` are catalog file I/O. They are a `Loader` value: what gets loaded is an arbitrary function of the domain and file, or of the locale. `unload_textdomain` removes the domain from `$l10n`.
- `L10n.TranslationsFor` is only a lookup of `$l10n`. Any loading `get_translations_for_domain` does on its own for a domain that is not loaded is not modelled.
- Catalogs are opaque tokens. The no-op catalog's file name is taken to be the empty string, so it is never reloaded. In PHP, `NOOP_Translations` has no `get_filename()`, so this is a fatal error ("Call to undefined method"). It happens in three steps:
  1. a failed reload caches a no-op catalog (:145);
  2. returning to that locale installs it into `$l10n` (:128 or :188);
  3. a later first-visit switch calls `$mo->get_filename()` on it (:141).
  The model carries on where PHP stops.
- `new WP_Locale()` is a foreign object. It is modelled only as the locale it is built for.
- The hook registry holds only the switcher's callbacks, with no priorities; callbacks of the `locale` filter other than the switcher's are left out. How `$locale` gets its value is not modelled: it is an input of `I18nGlobals`.
- `get_available_languages()` is an input set. PHP's loose `in_array` comparison is taken to be string equality.
- Array keys: only `false` → `0` → `"0"` is modelled. Other numeric-string locale keys, which PHP turns into integers, behave like any other string.
- `Storage.LocaleStorage.New` takes a string, so the `(string)` cast of other values is not modelled.
- `restore_locale` when `$l10n` is null: the model leaves `$l10n` null. PHP 7 emits a warning and skips the loop; PHP 8 throws a `TypeError`.
- `Switcher.LocaleSwitcher.RestoreLocale` takes `reset` as a boolean. The source tests `false === $reset` strictly, so any argument that is not `false` acts as a reset, including falsy ones such as `0`, `null` and `''`. The model does not capture this.
- `restore_locale( true )` pops only one entry, as the code does. It is not modelled as clearing the stack, although that is how a reset to the original locale is usually described.
- Two behaviours are kept as written rather than corrected:
  - a switch that fails because `$l10n` is null leaves its locale on the stack;
  - `restore_locale()` answers false when the pop empties the stack.
- Plugins adding their own `locale` filters are not modelled, nor are global variables changed by other code between calls.
