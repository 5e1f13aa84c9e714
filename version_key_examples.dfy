/**
 * The comparisons the crate's own tests make (`src/lib.rs`), each derived
 * from the general lemmas rather than by evaluating the keys.
 */
module VersionKeyExamples {
  import opened Ordering
  import opened VersionKey
  import opened VersionKeyEquivalence
  import opened VersionKeyPadding
  import opened VersionKeyOrder

  /** `test_standard_release`. */
  lemma StandardReleaseExamples()
    ensures StandardRelease("1.0.0") && StandardRelease("2.4.1")
    ensures !StandardRelease("1.0.0-alpha") && !StandardRelease("2.4.1-rc1") && !StandardRelease("1.1.1-beta.1")
  {
  }

  /** The tags of the pre-release words the tests use, all below `*final`. */
  lemma TagExamples()
    ensures Tag("alpha") == "*a" && Tag("beta") == "*b" && Tag("rc") == "*c"
    ensures StrLt("*a", Final) && StrLt("*b", Final) && StrLt("*c", Final)
    ensures StrLt("*a", "*b") && StrLt("*b", "*c")
    ensures Word("alpha") && Word("beta") && Word("rc")
  {
    assert Normalize("alpha") == "a" && Normalize("beta") == "b" && Normalize("rc") == "c";
  }

  /** The numbers the tests use after a dot or a pre-release word. */
  lemma NumberExamples()
    ensures ZeroRun("0") && AllDigits("0")
    ensures "1" != [] && AllDigits("1") && Pad("1") != PaddedZero
    ensures "2" != [] && AllDigits("2") && Value("1") < Value("2")
  {
    assert Pad("1") == "00000001";
  }

  /** `test_version_parsing`, for every standard base the way the tests use "2.4" and "1.1": "2.4.1" > "2.4.0". */
  lemma NewerPatchRelease(base: string)
    requires StandardRelease(base)
    ensures KeyLt(Key(base + ".0"), Key(base + ".1"))
  {
    NumberExamples();
    TrailingZeroComponent(base, "0");
    NewerComponent(base, "1");
    assert base + ".0" == base + "." + "0" && base + ".1" == base + "." + "1";
  }

  /** `test_version_parsing`, for every standard base the way the tests use "2.4": "2.4.0" > "2.4.0-alpha". */
  lemma AlphaBeforePatchRelease(base: string)
    requires StandardRelease(base)
    ensures KeyLt(Key(base + ".0-alpha"), Key(base + ".0"))
  {
    TagExamples();
    NumberExamples();
    AppendedNumberStandard(base, "0");
    PreReleaseBeforeRelease(base + "." + "0", "alpha", "");
    assert base + ".0-alpha" == base + "." + "0" + "-" + "alpha" + "";
    assert base + ".0" == base + "." + "0";
  }

  /**
   * `test_prerelease_ordering`, for every standard release the way the
   * tests use "1.0.0": "-alpha" < "-beta" < "-rc" < "-rc1" < "-rc2" < the
   * release itself.
   */
  lemma PreReleaseOrdering(release: string)
    requires StandardRelease(release)
    ensures KeyLt(Key(release + "-rc1"), Key(release))
    ensures KeyLt(Key(release + "-rc1"), Key(release + "-rc2"))
    ensures KeyLt(Key(release + "-beta"), Key(release + "-rc"))
    ensures KeyLt(Key(release + "-alpha"), Key(release + "-beta"))
  {
    TagExamples();
    NumberExamples();
    assert release + "-rc1" == release + "-" + "rc" + "1";
    assert release + "-rc2" == release + "-" + "rc" + "2";
    assert release + "-rc" == release + "-" + "rc" + "";
    assert release + "-beta" == release + "-" + "beta" + "";
    assert release + "-alpha" == release + "-" + "alpha" + "";
    PreReleaseBeforeRelease(release, "rc", "1");
    PreReleasesByNumber(release, "rc", "1", "2");
    PreReleasesByTag(release, "beta", "", "rc", "");
    PreReleasesByTag(release, "alpha", "", "beta", "");
  }

  /** "-rc1", "-pre1" and "-preview1" after the same release all give one key. */
  lemma ReleaseCandidateSpellings(release: string, w: string)
    requires w == "pre" || w == "preview"
    ensures Key(release + "-rc1") == Key(release + "-" + w + "1")
  {
    var p := release + "-";
    SpellingFacts();
    AliasedWords(p, "rc", w, "1");
    assert release + "-rc1" == p + "rc" + "1";
  }

  lemma SpellingFacts()
    ensures Word("rc") && Word("pre") && Word("preview")
    ensures Normalize("rc") == "c" && Normalize("pre") == "c" && Normalize("preview") == "c"
    ensures !LetterBoundary('-') && !LetterBoundary('1')
  { }

  /** Case does not matter: "-RC1" and "-rc1" after the same release give one key. */
  lemma UpperCaseReleaseCandidate(release: string)
    ensures Key(release + "-RC1") == Key(release + "-rc1")
  {
    var s, t := release + "-RC1", release + "-rc1";
    SuffixCase();
    forall i | 0 <= i < |s|
      ensures LowerChar(s[i]) == LowerChar(t[i])
    {
      if i >= |release| {
        assert s[i] == "-RC1"[i - |release|] && t[i] == "-rc1"[i - |release|];
      }
    }
    KeyIgnoresCase(s, t);
  }

  lemma SuffixCase()
    ensures forall i :: 0 <= i < 4 ==> LowerChar("-RC1"[i]) == LowerChar("-rc1"[i])
  {
    assert LowerChar('R') == 'r' && LowerChar('C') == 'c';
  }
}
