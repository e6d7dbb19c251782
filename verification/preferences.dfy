/**
 The accessibility preferences kept in browser local storage: interface
 language, contrast mode (0 normal, 1 dark, 2 high contrast) and font size
 (0 small to 3 extra large). Storage is a map from key to stored text; the
 page writes a number as its decimal text and reads it back with
 `parseInt(...) || default`.
 */
module Preferences {
  import opened Wrappers
  import opened JsNumber

  /** Local storage: key to stored text */
  type Storage = map<string, string>

  const LanguageKey: string := "language"
  const ContrastKey: string := "contrastMode"
  const FontSizeKey: string := "fontSize"

  const DefaultLanguage: string := "en"
  const DefaultContrast: int := 0
  const DefaultFontSize: int := 1

  datatype Preferences = Preferences(language: string, contrastMode: int, fontSize: int)

  /** `localStorage.getItem(key)`: None plays the part of `null` */
  function GetItem(store: Storage, key: string): Option<string> {
    if key in store then Some(store[key]) else None
  }

  /** The text `parseInt` reads from an item: `null` is converted to "null" */
  function ItemText(item: Option<string>): string {
    item.GetOr("null")
  }

  /** `item || fallback` for a stored item: null and "" are falsy */
  function ItemOr(item: Option<string>, fallback: string): string {
    if item.Some? && item.value != [] then item.value else fallback
  }

  /** `loadSavedPreferences`, as written: a stored number that reads as 0 or
      NaN falls back to the default, and so does a missing one. */
  function LoadSavedPreferences(store: Storage): (p: Preferences)
    ensures ContrastKey !in store ==> p.contrastMode == DefaultContrast
    ensures ContrastKey in store && ParseInt(store[ContrastKey]).Int?
            ==> p.contrastMode == ParseInt(store[ContrastKey]).value
    ensures ContrastKey in store && ParseInt(store[ContrastKey]).NaN? ==> p.contrastMode == DefaultContrast
    ensures FontSizeKey !in store ==> p.fontSize == DefaultFontSize
    ensures FontSizeKey in store && Truthy(ParseInt(store[FontSizeKey]))
            ==> p.fontSize == ParseInt(store[FontSizeKey]).value
    ensures FontSizeKey in store && !Truthy(ParseInt(store[FontSizeKey])) ==> p.fontSize == DefaultFontSize
    ensures LanguageKey in store && store[LanguageKey] != [] ==> p.language == store[LanguageKey]
    ensures LanguageKey !in store || store[LanguageKey] == [] ==> p.language == DefaultLanguage
  {
    ParseIntNull();
    Preferences(
      ItemOr(GetItem(store, LanguageKey), DefaultLanguage),
      Or(ParseInt(ItemText(GetItem(store, ContrastKey))), DefaultContrast),
      Or(ParseInt(ItemText(GetItem(store, FontSizeKey))), DefaultFontSize))
  }

  /** The storage write of `setContrastMode` */
  function SaveContrastMode(store: Storage, mode: int): Storage {
    store[ContrastKey := IntToString(mode)]
  }

  /** The storage write of `setFontSize` */
  function SaveFontSize(store: Storage, size: int): Storage {
    store[FontSizeKey := IntToString(size)]
  }

  /** The storage write of `selectLanguage` */
  function SaveLanguage(store: Storage, code: string): Storage {
    store[LanguageKey := code]
  }

  /** Any saved contrast mode is restored on the next page load. */
  lemma ContrastRoundTrip(store: Storage, mode: int)
    ensures LoadSavedPreferences(SaveContrastMode(store, mode)).contrastMode == mode
  {
    ParseIntOfIntToString(mode);
  }

  /** Any saved non-empty language code is restored on the next page load. */
  lemma LanguageRoundTrip(store: Storage, code: string)
    requires code != []
    ensures LoadSavedPreferences(SaveLanguage(store, code)).language == code
  {
  }

  /** A saved font size other than 0 is restored on the next page load. */
  lemma FontSizeRoundTripNonZero(store: Storage, size: int)
    requires size != 0
    ensures LoadSavedPreferences(SaveFontSize(store, size)).fontSize == size
  {
    ParseIntOfIntToString(size);
  }

  /** The small font size (0) does not survive a reload: `parseInt("0")` is
      0, which is falsy, so `|| 1` turns it into the medium size. */
  lemma SmallFontReloadsAsMedium(store: Storage)
    ensures LoadSavedPreferences(SaveFontSize(store, 0)).fontSize == 1
  {
    ParseIntOfIntToString(0);
  }

  /** Saving one preference leaves how the other two load unchanged. */
  lemma SavesAreIndependent(store: Storage, mode: int, size: int, code: string)
    ensures var p := LoadSavedPreferences(store);
      && LoadSavedPreferences(SaveContrastMode(store, mode)).fontSize == p.fontSize
      && LoadSavedPreferences(SaveContrastMode(store, mode)).language == p.language
      && LoadSavedPreferences(SaveFontSize(store, size)).contrastMode == p.contrastMode
      && LoadSavedPreferences(SaveFontSize(store, size)).language == p.language
      && LoadSavedPreferences(SaveLanguage(store, code)).contrastMode == p.contrastMode
      && LoadSavedPreferences(SaveLanguage(store, code)).fontSize == p.fontSize
  {
  }

  /** The loader as evidently intended: only a missing or unreadable number
      falls back to its default, so a stored 0 stays 0. */
  function LoadSavedPreferencesIntended(store: Storage): (p: Preferences)
    ensures p.language == LoadSavedPreferences(store).language
    ensures p.contrastMode == LoadSavedPreferences(store).contrastMode
    ensures FontSizeKey !in store ==> p.fontSize == DefaultFontSize
    ensures FontSizeKey in store && ParseInt(store[FontSizeKey]).Int?
            ==> p.fontSize == ParseInt(store[FontSizeKey]).value
    ensures FontSizeKey in store && ParseInt(store[FontSizeKey]).NaN? ==> p.fontSize == DefaultFontSize
  {
    ParseIntNull();
    Preferences(
      ItemOr(GetItem(store, LanguageKey), DefaultLanguage),
      NumberOr(ParseInt(ItemText(GetItem(store, ContrastKey))), DefaultContrast),
      NumberOr(ParseInt(ItemText(GetItem(store, FontSizeKey))), DefaultFontSize))
  }

  /** With the intended loader every saved font size, small included, is
      restored on the next page load. */
  lemma FontSizeRoundTrip(store: Storage, size: int)
    ensures LoadSavedPreferencesIntended(SaveFontSize(store, size)).fontSize == size
  {
    ParseIntOfIntToString(size);
  }
}
