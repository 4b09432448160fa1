/**
 * The region suffix of the system locale identifier and the identifier of
 * the locale built for the interface language. The system identifier is a
 * parameter instead of being read from the device.
 */
module LocaleSuffix {
  import opened Wrappers
  import opened Text

  /** `_` occurs nowhere in `s`. */
  predicate NoUnderscore(s: string) {
    forall i :: 0 <= i < |s| ==> s[i] != '_'
  }

  /**
   * `systemLocaleRegionSuffix`: the identifier from its first `_` on, or
   * the empty string when it has none.
   */
  function SystemLocaleRegionSuffix(identifier: string): (r: string)
    ensures |r| <= |identifier| && r == identifier[|identifier| - |r|..]
    ensures NoUnderscore(identifier[..|identifier| - |r|])
    ensures r == [] <==> NoUnderscore(identifier)
    ensures r != [] ==> r[0] == '_'
  {
    var range := IndexOf(identifier, '_', 0);
    IndexOfSound(identifier, '_', 0);
    match range
    case Some(lowerBound) =>
      assert NoUnderscore(identifier[..lowerBound]) by {
        forall i | 0 <= i < lowerBound ensures identifier[..lowerBound][i] != '_' {
          assert identifier[..lowerBound][i] == identifier[i];
        }
      }
      assert identifier[lowerBound..][0] == '_';
      identifier[lowerBound..]
    case None =>
      assert identifier[..|identifier|] == identifier;
      []
  }

  /** The identifier of the locale built by `localeWithStrings`: the language code, then the system region suffix. */
  function LocaleIdentifier(languageCode: string, systemIdentifier: string): (r: string)
    ensures |languageCode| <= |r| && r[..|languageCode|] == languageCode
    ensures r[|languageCode|..] == SystemLocaleRegionSuffix(systemIdentifier)
  {
    var code := languageCode + SystemLocaleRegionSuffix(systemIdentifier);
    assert code[..|languageCode|] == languageCode;
    code
  }

  /** A system identifier without a region gives the bare language code. */
  lemma NoRegionGivesLanguageCode(languageCode: string, systemIdentifier: string)
    requires NoUnderscore(systemIdentifier)
    ensures LocaleIdentifier(languageCode, systemIdentifier) == languageCode
  {
    assert languageCode + [] == languageCode;
  }

  /**
   * For a language code without `_`, the built identifier carries the same
   * region as the system one: taking its suffix again gives the system suffix.
   */
  lemma SuffixOfBuiltIdentifier(languageCode: string, systemIdentifier: string)
    requires NoUnderscore(languageCode)
    ensures SystemLocaleRegionSuffix(LocaleIdentifier(languageCode, systemIdentifier))
         == SystemLocaleRegionSuffix(systemIdentifier)
  {
    var suffix := SystemLocaleRegionSuffix(systemIdentifier);
    var built := LocaleIdentifier(languageCode, systemIdentifier);
    assert built == languageCode + suffix;
    if suffix == [] {
      assert built == languageCode;
    } else {
      var n := |languageCode|;
      assert built[n] == suffix[0] == '_';
      assert forall j :: 0 <= j < n ==> built[j] != '_' by {
        forall j | 0 <= j < n ensures built[j] != '_' {
          assert built[j] == languageCode[j];
        }
      }
      IndexOfAt(built, '_', 0, n);
      assert built[n..] == suffix;
    }
  }
}
