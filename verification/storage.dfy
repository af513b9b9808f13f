/** WP_Locale_Storage: an immutable holder of one locale whose `get` serves as a `locale` filter callback. */
module Storage {

  /** The stored locale is set once, at construction; no member changes it. */
  datatype LocaleStorage = LocaleStorage(locale: string) {

    /** `new WP_Locale_Storage( $locale )`: stores `(string) $locale`, which for a string is the string itself. */
    static function New(locale: string): (s: LocaleStorage)
      ensures s.Get() == locale
    {
      LocaleStorage(locale)
    }

    /** get(): the stored locale. */
    function Get(): string {
      locale
    }

    /** `array( $storage, 'get' )` called by apply_filters: the value being filtered is passed in and ignored. */
    function Filter(value: string): string {
      Get()
    }
  }

  /** Used as a `locale` filter, a storage answers with its own locale whatever value it is handed. */
  lemma FilterIgnoresItsInput(s: LocaleStorage, value: string, other: string)
    ensures s.Filter(value) == s.Filter(other) == s.Get()
  {
  }
}
