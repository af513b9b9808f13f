/**
 * The scenarios of tests/phpunit/tests/locale/class-wp-switch-locale.php, and four that show behaviour of
 * restore_locale() the model keeps as written, each stated as calls on the model with its answers proved.
 */
module SwitchLocaleTraces {
  import opened Php
  import opened L10n
  import opened Switcher

  /** The languages the scenarios treat as installed. */
  const Installed: set<Locale> := {"es_ES", "en_GB", "xx_XX"}

  const TestDomain: Domain := "wp-tests-domain"

  /** A loader under which every file loads again (as catalog 1) and no default catalog exists. */
  function TestLoader(): Loader {
    Loader((d, file) => Some(Mo(1, file)), locale => None)
  }

  /** The test domain loaded from its file, as catalog 0. */
  function TestCatalogs(): Catalogs {
    map[TestDomain := Mo(0, "simple.mo")]
  }

  /** With `$l10n` null, switching answers false, yet every switch leaves its locale on the stack. */
  method SwitchWithoutTranslations() returns (first: Option<Locale>, second: Option<Locale>, stack: seq<Locale>, current: Locale)
    ensures first == None && second == None
    ensures stack == ["es_ES", "en_GB"] && current == "en_US"
  {
    var env := new I18nGlobals("en_US", None);
    var switcher := new LocaleSwitcher(env);
    first := switcher.SwitchToLocale("es_ES", Installed, TestLoader());
    second := switcher.SwitchToLocale("en_GB", Installed, TestLoader());
    stack := switcher.locales;
    current := env.GetLocale();
  }

  /**
   * The switches of test_switches_to_es, with get_locale() after each: the answers do not depend on the catalogs
   * loaded at the start (the test loads one) nor on what the loaders do.
   */
  method SwitchesToEs(catalogs: Catalogs, loader: Loader) returns (answers: seq<Option<Locale>>, observed: seq<Locale>)
    ensures answers == [Some("es_ES"), Some("en_GB"), Some("en_GB")]
    ensures observed == ["es_ES", "en_GB", "en_GB"]
  {
    var env := new I18nGlobals("en_US", Some(catalogs));
    var switcher := new LocaleSwitcher(env);
    var r1 := switcher.SwitchToLocale("es_ES", Installed, loader);
    var o1 := env.GetLocale();
    var r2 := switcher.SwitchToLocale("en_GB", Installed, loader);
    var o2 := env.GetLocale();
    // Switching to the current locale returns early.
    var r3 := switcher.SwitchToLocale("en_GB", Installed, loader);
    var o3 := env.GetLocale();
    answers := [r1, r2, r3];
    observed := [o1, o2, o3];
  }

  /** The restores of test_switches_to_es that follow those switches, and the switch after them. */
  method RestoresAfterSwitches(catalogs: Catalogs, loader: Loader) returns (answers: seq<Option<Locale>>, observed: seq<Locale>)
    ensures answers == [Some("es_ES"), Some("en_US"), Some("xx_XX")]
    ensures observed == ["es_ES", "en_US", "xx_XX"]
  {
    var env := new I18nGlobals("en_US", Some(catalogs));
    var switcher := new LocaleSwitcher(env);
    var _ := switcher.SwitchToLocale("es_ES", Installed, loader);
    var _ := switcher.SwitchToLocale("en_GB", Installed, loader);
    assert switcher.locales == ["es_ES", "en_GB"];
    var r1 := switcher.RestoreLocale(false);
    var o1 := env.GetLocale();
    assert switcher.locales == ["es_ES"];
    var r2 := switcher.RestoreLocale(true);
    var o2 := env.GetLocale();
    var r3 := switcher.SwitchToLocale("xx_XX", Installed, loader);
    var o3 := env.GetLocale();
    answers := [r1, r2, r3];
    observed := [o1, o2, o3];
  }

  /**
   * restore_locale() that empties the stack answers false; get_locale() is the original locale again, but the
   * catalogs loaded for the locale left stay installed, as nothing is cached under the key false.
   */
  method RestoreToOriginal() returns (answer: Option<Locale>, current: Locale, catalogs: Option<Catalogs>)
    ensures answer == None && current == "en_US"
    ensures catalogs == Some(map[TestDomain := Mo(1, "simple.mo")])
    ensures catalogs != Some(TestCatalogs())
  {
    var env := new I18nGlobals("en_US", Some(TestCatalogs()));
    var switcher := new LocaleSwitcher(env);
    var switched := switcher.SwitchToLocale("es_ES", Installed, TestLoader());
    FirstSwitchToEs();
    var reloaded := map[TestDomain := Mo(1, "simple.mo")];
    assert env.l10n == Some(reloaded);
    assert FalseKey !in switcher.translations;
    assert Overlay(reloaded, map[]) == reloaded;
    answer := switcher.RestoreLocale(false);
    current := env.GetLocale();
    catalogs := env.l10n;
  }

  /** The first switch from en_US to es_ES caches the catalogs left and reloads the test domain's file. */
  lemma FirstSwitchToEs()
    ensures Switched(map[], "en_US", "es_ES", TestCatalogs(), TestLoader()) ==
      Catalogued(map["en_US" := TestCatalogs(), "es_ES" := map[TestDomain := Mo(1, "simple.mo")]],
                 map[TestDomain := Mo(1, "simple.mo")])
  {
    var live := TestCatalogs();
    assert TestDomain in live;
    assert map[] + live == live;
    var left := Left(map[], "en_US", live);
    assert left == map["en_US" := live];
    assert !HasTranslations(left, "es_ES");
    assert Truthy("simple.mo");
    assert Reloaded(live, TestDomain, "es_ES", TestLoader()) == Some(Mo(1, "simple.mo"));
    assert ReloadedOn(live, live.Keys, "es_ES", TestLoader()) == map[TestDomain := Mo(1, "simple.mo")];
    var reloaded := map[TestDomain := Mo(1, "simple.mo")];
    assert FreshOn(live, live.Keys, "es_ES", TestLoader()) == reloaded;
    assert EntryOf(left, "es_ES") + reloaded == reloaded;
  }

  /**
   * A locale left on the stack by a switch that failed for lack of `$l10n` has no callback: restoring to it
   * answers that locale while get_locale() stays the original one.
   */
  method RestoreToStaleEntry() returns (answer: Option<Locale>, current: Locale)
    ensures answer == Some("es_ES") && current == "en_US"
  {
    var env := new I18nGlobals("en_US", None);
    var switcher := new LocaleSwitcher(env);
    var failed := switcher.SwitchToLocale("es_ES", Installed, TestLoader());
    // A text domain is loaded afterwards, as in test_switches_to_es.
    env.l10n := Some(TestCatalogs());
    var switched := switcher.SwitchToLocale("en_GB", Installed, TestLoader());
    answer := switcher.RestoreLocale(false);
    current := env.GetLocale();
  }

  /**
   * The round trip of a switch and a restore breaks when the locale switched to is already on top of the stack:
   * after a switch to es_ES failed for lack of `$l10n`, a successful switch to es_ES pushes it a second time, and
   * restore_locale() answers es_ES, registers its callback again and leaves get_locale() at es_ES, not en_US.
   */
  method SwitchOntoStaleEntry() returns (switched: Option<Locale>, answer: Option<Locale>, current: Locale, stack: seq<Locale>)
    ensures switched == Some("es_ES") && answer == Some("es_ES")
    ensures current == "es_ES" && stack == ["es_ES"]
  {
    var env := new I18nGlobals("en_US", None);
    var switcher := new LocaleSwitcher(env);
    var failed := switcher.SwitchToLocale("es_ES", Installed, TestLoader());
    env.l10n := Some(TestCatalogs());
    switched := switcher.SwitchToLocale("es_ES", Installed, TestLoader());
    answer := switcher.RestoreLocale(false);
    current := env.GetLocale();
    stack := switcher.locales;
  }

  /**
   * Switch and restore pairs do not nest: after a failed switch to es_ES leaves it on the stack, switching to en_GB
   * and then to es_ES, and restoring twice, ends at es_ES rather than en_US, because the inner switch created the
   * callback for es_ES that the second restore registers again.
   */
  method NestedPairsDoNotCompose() returns (answers: seq<Option<Locale>>, current: Locale, stack: seq<Locale>)
    ensures answers == [Some("en_GB"), Some("es_ES"), Some("en_GB"), Some("es_ES")]
    ensures current == "es_ES" && stack == ["es_ES"]
  {
    var switcher, outer := OuterSwitchOverStaleEntry();
    var inner := switcher.SwitchToLocale("es_ES", Installed, TestLoader());
    var first, second := RestoreTwice(switcher);
    answers := [outer, inner, first, second];
    current := switcher.env.GetLocale();
    stack := switcher.locales;
  }

  /** The start of NestedPairsDoNotCompose: a failed switch to es_ES, then one to en_GB once a domain is loaded. */
  method OuterSwitchOverStaleEntry() returns (switcher: LocaleSwitcher, outer: Option<Locale>)
    ensures fresh(switcher) && fresh(switcher.env) && switcher.Valid()
    ensures outer == Some("en_GB") && switcher.env.GetLocale() == "en_GB" && switcher.env.l10n.Some?
    ensures switcher.locales == ["es_ES", "en_GB"] && "en_GB" in switcher.filters
  {
    var env := new I18nGlobals("en_US", None);
    switcher := new LocaleSwitcher(env);
    var failed := switcher.SwitchToLocale("es_ES", Installed, TestLoader());
    env.l10n := Some(TestCatalogs());
    outer := switcher.SwitchToLocale("en_GB", Installed, TestLoader());
  }

  /** The restores of NestedPairsDoNotCompose: each answers the new top and registers its callback again. */
  method RestoreTwice(switcher: LocaleSwitcher) returns (first: Option<Locale>, second: Option<Locale>)
    requires switcher.Valid() && switcher.locales == ["es_ES", "en_GB", "es_ES"]
    requires "en_GB" in switcher.filters && "es_ES" in switcher.filters
    modifies switcher, switcher.env
    ensures first == Some("en_GB") && second == Some("es_ES")
    ensures switcher.locales == ["es_ES"] && switcher.env.GetLocale() == "es_ES"
  {
    first := switcher.RestoreLocale(false);
    second := switcher.RestoreLocale(false);
  }
}
