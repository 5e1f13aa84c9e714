/** What every version key looks like, whatever the input string. */
module VersionKeyShape {
  import opened Ordering
  import opened VersionKey

  /** A key element is a `*` tag or a padded number of at least eight digits. */
  predicate WellFormedPart(p: string)
  {
    IsTag(p) || (AllDigits(p) && |p| >= PadWidth)
  }

  /** No tag directly follows a padded zero. */
  predicate NoTagAfterZero(k: seq<string>)
  {
    forall i :: 0 < i < |k| && IsTag(k[i]) ==> k[i - 1] != PaddedZero
  }

  lemma PartOfWellFormed(t: string)
    requires IsComponent(t)
    ensures forall i :: 0 <= i < |PartOf(t)| ==> WellFormedPart(PartOf(t)[i])
  {
    if t != [] && AllDigits(t) {
      assert Normalize(t) == t by {
        assert IsDigit(t[0]);
      }
      var pad := Pad(t);
      assert forall i :: 0 <= i < |pad| ==> IsDigit(pad[i]);
    } else if t != [] && AllLetters(t) {
      assert IsLetter(t[0]);
    }
  }

  lemma {:induction false} PartsWellFormed(comps: seq<string>, n: nat)
    requires n <= |comps|
    requires forall i :: 0 <= i < |comps| ==> IsComponent(comps[i])
    ensures forall i :: 0 <= i < |PartsUpTo(comps, n)| ==> WellFormedPart(PartsUpTo(comps, n)[i])
  {
    if n > 0 {
      PartsWellFormed(comps, n - 1);
      PartOfWellFormed(comps[n - 1]);
    }
  }

  /** The clean-up only removes elements and pushes parts, so well-formedness survives it. */
  lemma {:induction false} CleanupWellFormed(parts: seq<string>, n: nat)
    requires n <= |parts|
    requires forall i :: 0 <= i < |parts| ==> WellFormedPart(parts[i])
    ensures forall i :: 0 <= i < |CleanupUpTo(parts, n)| ==> WellFormedPart(CleanupUpTo(parts, n)[i])
  {
    if n > 0 {
      CleanupWellFormed(parts, n - 1);
    }
  }

  /** Pushing keeps "no tag after a zero": a tag is only pushed once the zeros below it are popped. */
  lemma PushNoTagAfterZero(stack: seq<string>, p: string)
    requires NoTagAfterZero(stack)
    ensures NoTagAfterZero(Push(stack, p))
  {
    if IsTag(p) {
      var s1 := if StrLt(p, Final) then PopAll(stack, FinalDash) else stack;
      var s2 := PopAll(s1, PaddedZero);
      assert NoTagAfterZero(s1);
      assert NoTagAfterZero(s2);
      assert s2 == [] || s2[|s2| - 1] != PaddedZero;
      var r := s2 + [p];
      forall i | 0 < i < |r| && IsTag(r[i])
        ensures r[i - 1] != PaddedZero
      {
        if i < |s2| {
          assert r[i] == s2[i] && r[i - 1] == s2[i - 1];
        }
      }
    } else {
      var r := stack + [p];
      forall i | 0 < i < |r| && IsTag(r[i])
        ensures r[i - 1] != PaddedZero
      {
        assert i < |stack|;
        assert r[i] == stack[i] && r[i - 1] == stack[i - 1];
      }
    }
  }

  lemma {:induction false} CleanupNoTagAfterZero(parts: seq<string>, n: nat)
    requires n <= |parts|
    ensures NoTagAfterZero(CleanupUpTo(parts, n))
  {
    if n > 0 {
      CleanupNoTagAfterZero(parts, n - 1);
      PushNoTagAfterZero(CleanupUpTo(parts, n - 1), parts[n - 1]);
    }
  }

  /**
   * Every key ends in `*final`, and each element is a `*` tag or a number
   * of at least eight digits; in particular no element is empty or ".".
   */
  lemma KeyShape(s: string)
    ensures |Key(s)| > 0 && Key(s)[|Key(s)| - 1] == Final
    ensures forall i :: 0 <= i < |Key(s)| ==> WellFormedPart(Key(s)[i])
    ensures forall i :: 0 <= i < |Key(s)| ==> Key(s)[i] != [] && Key(s)[i] != "."
  {
    var comps := Components(Lower(s));
    var parts := Parts(comps) + [Final];
    ComponentsAreMatches(Lower(s), 0);
    PartsWellFormed(comps, |comps|);
    CleanupWellFormed(parts, |parts|);
    var k := Key(s);
    forall i | 0 <= i < |k|
      ensures k[i] != [] && k[i] != "."
    {
      assert WellFormedPart(k[i]);
      if !IsTag(k[i]) {
        assert IsDigit(k[i][0]);
      }
    }
  }

  /** No tag directly follows a padded zero in a key, which is why trailing ".0" components vanish. */
  lemma KeyNoTagAfterZero(s: string)
    ensures NoTagAfterZero(Key(s))
  {
    var parts := Parts(Components(Lower(s))) + [Final];
    CleanupNoTagAfterZero(parts, |parts|);
  }
}
