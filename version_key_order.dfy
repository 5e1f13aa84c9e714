/**
 * How the keys of a standard release ("1.2.3"), of its pre-releases
 * ("1.2.3-rc1") and of its successors ("1.2.3.1") compare: the facts the
 * update decision relies on when it asks whether the running version is
 * older than the newest one published.
 */
module VersionKeyOrder {
  import opened Ordering
  import opened VersionKey
  import opened VersionKeyEquivalence
  import opened VersionKeyPadding

  /** No part is a `*` tag: every part is a padded number. */
  predicate NoTags(ps: seq<string>)
  {
    forall i :: 0 <= i < |ps| ==> !IsTag(ps[i])
  }

  /** A component of a standard release: a dot or a run of digits. */
  predicate NumericComponent(t: string)
  {
    t == "." || (t != [] && AllDigits(t))
  }

  /** The numeric parts a standard release contributes to every key built on it, trailing zeros dropped. */
  function Release(s: string): (r: seq<string>)
  {
    PopAll(Parts(Components(s)), PaddedZero)
  }

  /** The tag a pre-release word becomes. */
  function Tag(w: string): (t: string)
  {
    "*" + Normalize(w)
  }

  /** What a number right after a pre-release word leaves in the key: nothing when it is absent or pads to "00000000" (one to eight zeros). */
  function NumberPart(d: string): (ps: seq<string>)
  {
    if d == [] || Pad(d) == PaddedZero then [] else [Pad(d)]
  }

  lemma LowerIdentity(x: string)
    requires forall i :: 0 <= i < |x| ==> !IsUpper(x[i])
    ensures Lower(x) == x
  {
    LowerFromChars(x, 0);
  }

  /** The components of a string of digits and dots are dots and digit runs. */
  lemma {:induction false} NumericComponentsFrom(s: string, i: nat)
    requires i <= |s|
    requires forall m :: 0 <= m < |s| ==> IsDigit(s[m]) || s[m] == '.'
    ensures forall m :: 0 <= m < |ComponentsFrom(s, i)| ==> NumericComponent(ComponentsFrom(s, i)[m])
    decreases |s| - i
  {
    if i < |s| {
      var j := MatchEnd(s, i);
      NumericComponentsFrom(s, j);
      if Class(s[i]) == Digit {
        RunEndMaximal(s, i, Digit);
        var t := s[i..j];
        assert forall m :: 0 <= m < |t| ==> t[m] == s[i + m];
        assert NumericComponent(t);
      } else {
        assert s[i..j] == ".";
      }
    }
  }

  /** A run of digits normalizes to itself and pads to a number that starts with a digit. */
  lemma DigitsPart(d: string)
    requires d != [] && AllDigits(d)
    ensures Normalize(d) == d
    ensures Pad(d) != [] && IsDigit(Pad(d)[0]) && !IsTag(Pad(d))
    ensures PartOf(d) == [Pad(d)]
  {
    assert IsDigit(d[0]);
  }

  lemma {:induction false} NumericPartsNoTags(comps: seq<string>, n: nat)
    requires n <= |comps|
    requires forall m :: 0 <= m < |comps| ==> NumericComponent(comps[m])
    ensures NoTags(PartsUpTo(comps, n))
  {
    if n > 0 {
      NumericPartsNoTags(comps, n - 1);
      if comps[n - 1] != "." {
        DigitsPart(comps[n - 1]);
      }
    }
  }

  /** Without tags nothing is ever popped: the clean-up keeps the parts as they are. */
  lemma {:induction false} CleanupNoTags(ps: seq<string>, n: nat)
    requires n <= |ps|
    requires NoTags(ps)
    ensures CleanupUpTo(ps, n) == ps[..n]
  {
    if n > 0 {
      CleanupNoTags(ps, n - 1);
      assert ps[..n] == ps[..n - 1] + [ps[n - 1]];
    }
  }

  /** A standard release is already lower case and its parts are numbers only. */
  lemma StandardParts(s: string)
    requires StandardRelease(s)
    ensures Lower(s) == s
    ensures NoTags(Parts(Components(s)))
    ensures NoTags(Release(s))
  {
    StandardReleaseChars(s, 0);
    LowerIdentity(s);
    NumericComponentsFrom(s, 0);
    NumericPartsNoTags(Components(s), |Components(s)|);
  }

  /** The key of a standard release is its numbers, trailing zeros dropped, then `*final`. */
  lemma ReleaseKey(s: string)
    requires StandardRelease(s)
    ensures Key(s) == Release(s) + [Final]
  {
    StandardParts(s);
    var p := Parts(Components(s));
    CleanupUpToPrefix(p, [Final], |p|);
    CleanupNoTags(p, |p|);
    assert p[..|p|] == p;
    StrLtIrreflexive(Final, 0);
    assert Key(s) == Push(p, Final);
  }

  /** A standard release followed by a dot and digits is a standard release. */
  lemma AppendedNumberStandard(s: string, d: string)
    requires StandardRelease(s)
    requires AllDigits(d)
    ensures StandardRelease(s + "." + d)
  {
    var v := s + "." + d;
    StandardReleaseChars(s, 0);
    StandardReleaseChars(v, 0);
    forall m | 0 <= m < |v|
      ensures IsDigit(v[m]) || v[m] == '.'
    {
      if m < |s| {
        assert v[m] == s[m];
      } else if m > |s| {
        assert v[m] == d[m - |s| - 1];
      }
    }
  }

  /** The components of `s.d`: those of `s`, the dot, then the digit run. */
  lemma AppendedNumberComponents(s: string, d: string)
    requires d != [] && AllDigits(d)
    requires s == [] || Class(s[|s| - 1]) == Digit || Class(s[|s| - 1]) == Dot
    ensures Components(s + "." + d) == Components(s) + [".", d]
  {
    assert Components(".") == ["."] by {
      assert "."[0..1] == ".";
    }
    DigitsComponents(d);
    ComponentsAppend(s, ".");
    assert (s + ".")[|s + "."| - 1] == '.';
    ComponentsAppend(s + ".", d);
  }

  /** A numeric component appended after a dot adds its padded number to the parts. */
  lemma AppendedNumberParts(s: string, d: string)
    requires StandardRelease(s)
    requires d != [] && AllDigits(d)
    ensures StandardRelease(s + "." + d)
    ensures Parts(Components(s + "." + d)) == Parts(Components(s)) + [Pad(d)]
  {
    AppendedNumberStandard(s, d);
    StandardReleaseChars(s, 0);
    assert s == [] || IsDigit(s[|s| - 1]) || s[|s| - 1] == '.';
    AppendedNumberComponents(s, d);
    var cs := Components(s);
    PartsAppend(cs, [".", d]);
    DigitsPart(d);
    assert Parts([".", d]) == [Pad(d)] by {
      assert PartsUpTo([".", d], 1) == PartsUpTo([".", d], 0) + PartOf(".");
      assert PartsUpTo([".", d], 2) == PartsUpTo([".", d], 1) + PartOf(d);
    }
  }

  /** A run of digits is one component of its own. */
  lemma DigitsComponents(d: string)
    requires d != [] && AllDigits(d)
    ensures Lower(d) == d
    ensures Components(d) == [d]
  {
    LowerIdentity(d);
    assert Class(d[0]) == Digit;
    var e := RunEnd(d, 0, Digit);
    RunEndMaximal(d, 0, Digit);
    assert e == |d|;
    assert d[0..e] == d;
    assert ComponentsFrom(d, 0) == [d] + ComponentsFrom(d, e);
  }

  /**
   * Appending a non-zero numeric component makes a newer version:
   * "2.4" < "2.4.1", "1.1" < "1.1.1". (A zero component changes nothing,
   * see `TrailingZeroComponent`.)
   */
  lemma NewerComponent(s: string, d: string)
    requires StandardRelease(s)
    requires d != [] && AllDigits(d) && Pad(d) != PaddedZero
    ensures KeyLt(Key(s), Key(s + "." + d))
  {
    var p := Parts(Components(s));
    AppendedNumberParts(s, d);
    ReleaseKey(s);
    ReleaseKey(s + "." + d);
    DigitsPart(d);
    var pd := p + [Pad(d)];
    assert Release(s + "." + d) == pd by {
      assert pd[|pd| - 1] == Pad(d);
    }
    var r := Release(s);
    PopAllPrefix(p, PaddedZero);
    var a, b := r + [Final], pd + [Final];
    var k := |r|;
    assert forall m :: 0 <= m < k ==> a[m] == b[m];
    if k < |p| {
      assert b[k] == PaddedZero;
    } else {
      assert b[k] == Pad(d);
    }
    StrLtByFirstChar(Final, b[k]);
    KeyLtAt(a, b, 0, k);
  }

  /** The `-` separator is one component, which becomes the part `*final-`. */
  lemma DashParts()
    ensures Lower("-") == "-"
    ensures Components("-") == ["-"]
    ensures PartOf("-") == [FinalDash]
    ensures Parts(["-"]) == [FinalDash]
  {
    LowerIdentity("-");
    assert "-"[0..1] == "-";
    assert Normalize("-") == "final-";
    assert "*" + "final-" == FinalDash;
    assert PartsUpTo(["-"], 1) == PartsUpTo(["-"], 0) + PartOf("-");
  }

  /** A word becomes a single tag part. */
  lemma WordParts(w: string)
    requires Word(w)
    ensures PartOf(w) == [Tag(w)]
    ensures Parts([w]) == [Tag(w)]
    ensures IsTag(Tag(w))
  {
    assert IsLetter(w[0]);
    var n := Normalize(w);
    assert n != [] && n != "." && !IsDigit(n[0]);
    assert PartsUpTo([w], 1) == PartsUpTo([w], 0) + PartOf(w);
  }

  /** What follows a pre-release word: nothing, or a digit run. */
  function Trailer(d: string): (cs: seq<string>)
  {
    if d == [] then [] else [d]
  }

  /** The pre-release `s-wd` is lower case already when `s` is standard. */
  lemma PreReleaseLower(s: string, w: string, d: string)
    requires StandardRelease(s) && Word(w) && AllDigits(d)
    ensures Lower(s + "-" + w + d) == s + "-" + w + d
  {
    var v := s + "-" + w + d;
    StandardReleaseChars(s, 0);
    forall m | 0 <= m < |v|
      ensures !IsUpper(v[m])
    {
      if m < |s| {
        assert v[m] == s[m];
      } else if m == |s| {
        assert v[m] == '-';
      } else if m <= |s| + |w| {
        assert v[m] == w[m - |s| - 1];
      } else {
        assert v[m] == d[m - |s| - |w| - 1];
      }
    }
    LowerIdentity(v);
  }

  /** The components of `s-wd`: those of `s`, the dash, the word, then the digit run if any. */
  lemma PreReleaseComponents(s: string, w: string, d: string)
    requires Word(w) && AllDigits(d)
    requires s == [] || Class(s[|s| - 1]) == Digit || Class(s[|s| - 1]) == Dot
    ensures Components(s + "-" + w + d) == Components(s) + ["-", w] + Trailer(d)
  {
    DashParts();
    WordComponents(w);
    var sd, sdw := s + "-", s + "-" + w;
    ComponentsAppend(s, "-");
    assert sd[|sd| - 1] == '-';
    ComponentsAppend(sd, w);
    assert sdw[|sdw| - 1] == w[|w| - 1];
    if d == [] {
      assert sdw + d == sdw;
    } else {
      DigitsComponents(d);
      ComponentsAppend(sdw, d);
    }
  }

  /** The parts of the components after a standard release: `*final-`, the tag, then the padded number if any. */
  lemma PreReleaseTailParts(w: string, d: string)
    requires Word(w) && AllDigits(d)
    ensures Parts(["-", w] + Trailer(d)) == [FinalDash, Tag(w)] + (if d == [] then [] else [Pad(d)])
  {
    DashParts();
    WordParts(w);
    var l := ["-", w] + Trailer(d);
    assert l[0] == "-" && l[1] == w;
    assert PartsUpTo(l, 1) == [FinalDash];
    assert PartsUpTo(l, 2) == [FinalDash, Tag(w)];
    if d != [] {
      DigitsPart(d);
      assert l[2] == d && |l| == 3;
      assert PartsUpTo(l, 3) == [FinalDash, Tag(w)] + [Pad(d)];
    }
  }

  /** The parts of `s-wd`: those of `s`, then `*final-`, the word's tag and the number `d`, if any. */
  lemma PreReleaseParts(s: string, w: string, d: string)
    requires StandardRelease(s) && Word(w) && AllDigits(d)
    ensures Parts(Components(Lower(s + "-" + w + d))) ==
      Parts(Components(s)) + [FinalDash, Tag(w)] + (if d == [] then [] else [Pad(d)])
  {
    PreReleaseLower(s, w, d);
    StandardReleaseChars(s, 0);
    assert s == [] || IsDigit(s[|s| - 1]) || s[|s| - 1] == '.';
    PreReleaseComponents(s, w, d);
    var cs := Components(s);
    PartsAppend(cs, ["-", w] + Trailer(d));
    PreReleaseTailParts(w, d);
    assert Components(Lower(s + "-" + w + d)) == cs + (["-", w] + Trailer(d));
  }

  /** The clean-up of parts with one more part at the end is one more push. */
  lemma CleanupSnoc(a: seq<string>, x: string)
    ensures Cleanup(a + [x]) == Push(Cleanup(a), x)
  {
    CleanupUpToPrefix(a, [x], |a|);
    assert (a + [x])[|a|] == x;
  }

  /** Numbers only, and not ending in a zero: what remains of a release's parts once its trailing zeros are popped. */
  predicate Trimmed(r: seq<string>)
  {
    NoTags(r) && (r == [] || r[|r| - 1] != PaddedZero)
  }

  /** `*final-` is no pre-release tag: it sorts after `*final`. */
  lemma DashAfterFinal()
    ensures !StrLt(FinalDash, Final)
  {
  }

  /** `*final-` pops the trailing zeros below it. */
  lemma PushDash(p: seq<string>)
    ensures Push(p, FinalDash) == PopAll(p, PaddedZero) + [FinalDash]
  {
    DashAfterFinal();
  }

  /** Popping the trailing zeros of numbers leaves them trimmed. */
  lemma PopZerosTrimmed(p: seq<string>)
    requires NoTags(p)
    ensures Trimmed(PopAll(p, PaddedZero))
  {
    var r := PopAll(p, PaddedZero);
    forall i | 0 <= i < |r|
      ensures !IsTag(r[i])
    {
      assert r[i] == p[i];
    }
  }

  /** Numbers only pass through the clean-up unchanged. */
  lemma CleanupOfNumbers(p: seq<string>)
    requires NoTags(p)
    ensures Cleanup(p) == p
  {
    CleanupNoTags(p, |p|);
    assert p[..|p|] == p;
  }

  /** A tag below `*final` pops the `*final-` that precedes it. */
  lemma PushTagOverDash(r: seq<string>, t: string)
    requires Trimmed(r) && IsTag(t) && StrLt(t, Final)
    ensures Push(r + [FinalDash], t) == r + [t]
  {
    assert (r + [FinalDash])[..|r|] == r;
    assert r == [] || r[|r| - 1] != FinalDash;
    assert PopAll(r + [FinalDash], FinalDash) == PopAll(r, FinalDash) == r;
  }

  /** `*final` pops trailing zeros and nothing else. */
  lemma PushFinal(c: seq<string>)
    ensures Push(c, Final) == PopAll(c, PaddedZero) + [Final]
  {
    StrLtIrreflexive(Final, 0);
  }

  /** The clean-up of parts with two more parts at the end is two more pushes. */
  lemma CleanupPair(q: seq<string>, x: string, y: string)
    ensures Cleanup(q + [x] + [y]) == Push(Push(Cleanup(q), x), y)
  {
    CleanupSnoc(q + [x], y);
    CleanupSnoc(q, x);
  }

  /** Popping zeros stops at anything else. */
  lemma PopZerosStop(c: seq<string>, y: string)
    requires y != PaddedZero
    ensures PopAll(c + [y], PaddedZero) == c + [y]
  {
  }

  /** A single trailing zero over a non-zero top is popped. */
  lemma PopOneZero(c: seq<string>)
    requires c != [] && c[|c| - 1] != PaddedZero
    ensures PopAll(c + [PaddedZero], PaddedZero) == c
  {
    assert (c + [PaddedZero])[..|c|] == c;
  }

  /** The clean-up of a release's parts followed by `*final-` and a tag below `*final`. */
  lemma CleanupDashTag(p: seq<string>, t: string)
    requires NoTags(p) && IsTag(t) && StrLt(t, Final)
    ensures Cleanup(p + [FinalDash, t]) == PopAll(p, PaddedZero) + [t]
  {
    CleanupPair(p, FinalDash, t);
    assert p + [FinalDash] + [t] == p + [FinalDash, t];
    CleanupOfNumbers(p);
    PushDash(p);
    PopZerosTrimmed(p);
    PushTagOverDash(PopAll(p, PaddedZero), t);
  }

  /** The clean-up of a pre-release's parts without a number: `*final-` is popped by the tag. */
  lemma CleanupBareTag(p: seq<string>, t: string)
    requires NoTags(p) && IsTag(t) && StrLt(t, Final)
    ensures Cleanup(p + [FinalDash, t] + [Final]) == PopAll(p, PaddedZero) + [t] + [Final]
  {
    var q := p + [FinalDash, t];
    CleanupDashTag(p, t);
    CleanupSnoc(q, Final);
    PushFinal(PopAll(p, PaddedZero) + [t]);
    PopZerosStop(PopAll(p, PaddedZero), t);
  }

  /**
   * The clean-up of a pre-release's parts with a number `y` after the tag:
   * `*final` pops `y` again when it is zero.
   */
  lemma CleanupTagNumber(p: seq<string>, t: string, y: string)
    requires NoTags(p) && IsTag(t) && StrLt(t, Final) && !IsTag(y)
    ensures Cleanup(p + [FinalDash, t] + [y] + [Final]) ==
      PopAll(p, PaddedZero) + [t] + (if y == PaddedZero then [] else [y]) + [Final]
  {
    var q := p + [FinalDash, t];
    var c := PopAll(p, PaddedZero) + [t];
    CleanupDashTag(p, t);
    CleanupPair(q, y, Final);
    PushFinal(c + [y]);
    if y == PaddedZero {
      PopOneZero(c);
      PopZerosStop(PopAll(p, PaddedZero), t);
    } else {
      PopZerosStop(c, y);
    }
  }

  /**
   * The key of the pre-release `s-wd` of a standard release `s`, for a
   * word `w` whose tag sorts below `*final` ("alpha", "beta", "rc", "pre",
   * "preview", "dev", …) and a number `d` (possibly absent): the release's
   * numbers, the tag, the number unless it is one to eight zeros (which
   * pad to "00000000" and are popped), then `*final`.
   */
  lemma PreReleaseKey(s: string, w: string, d: string)
    requires StandardRelease(s) && Word(w) && AllDigits(d)
    requires StrLt(Tag(w), Final)
    ensures Key(s + "-" + w + d) == Release(s) + [Tag(w)] + NumberPart(d) + [Final]
  {
    var v := s + "-" + w + d;
    PreReleaseParts(s, w, d);
    StandardParts(s);
    WordParts(w);
    var p := Parts(Components(s));
    if d == [] {
      KeyOfParts(v, p + [FinalDash, Tag(w)]);
      CleanupBareTag(p, Tag(w));
    } else {
      KeyOfParts(v, p + [FinalDash, Tag(w)] + [Pad(d)]);
      DigitsPart(d);
      CleanupTagNumber(p, Tag(w), Pad(d));
    }
  }

  /** A pre-release sorts below its release: "2.4.0-alpha" < "2.4.0", "1.0.0-rc1" < "1.0.0". */
  lemma PreReleaseBeforeRelease(s: string, w: string, d: string)
    requires StandardRelease(s) && Word(w) && AllDigits(d)
    requires StrLt(Tag(w), Final)
    ensures KeyLt(Key(s + "-" + w + d), Key(s))
  {
    PreReleaseKey(s, w, d);
    ReleaseKey(s);
    var r := Release(s);
    var a, b := Key(s + "-" + w + d), Key(s);
    assert a[|r|] == Tag(w) && b[|r|] == Final;
    KeyLtAt(a, b, 0, |r|);
  }

  /** Pre-releases of one release order by their tags first: "alpha" < "beta" < "rc". */
  lemma PreReleasesByTag(s: string, w1: string, d1: string, w2: string, d2: string)
    requires StandardRelease(s) && Word(w1) && Word(w2) && AllDigits(d1) && AllDigits(d2)
    requires StrLt(Tag(w1), Final) && StrLt(Tag(w2), Final)
    requires StrLt(Tag(w1), Tag(w2))
    ensures KeyLt(Key(s + "-" + w1 + d1), Key(s + "-" + w2 + d2))
  {
    PreReleaseKey(s, w1, d1);
    PreReleaseKey(s, w2, d2);
    var r := Release(s);
    var a, b := Key(s + "-" + w1 + d1), Key(s + "-" + w2 + d2);
    assert a[|r|] == Tag(w1) && b[|r|] == Tag(w2);
    KeyLtAt(a, b, 0, |r|);
  }

  /** A larger number after a pre-release word leaves a larger part, or the smaller one leaves none. */
  lemma NumberPartOrder(d1: string, d2: string)
    requires AllDigits(d1) && AllDigits(d2)
    requires |d1| <= PadWidth && 0 < |d2| <= PadWidth
    requires Value(d1) < Value(d2)
    ensures NumberPart(d2) == [Pad(d2)]
    ensures NumberPart(d1) == [] || StrLt(NumberPart(d1)[0], Pad(d2))
    ensures StrLt(Final, Pad(d2))
  {
    DigitsPart(d2);
    ValueFromBound(d1, 0);
    PaddedNumbersCompareByValue(d2, "0");
    assert Pad("0") == PaddedZero;
    StrLtByFirstChar(Final, Pad(d2));
    if NumberPart(d1) != [] {
      PaddedNumbersCompareByValue(d1, d2);
    }
  }

  /**
   * Pre-releases with the same tag order by the number after it, compared
   * by value: "rc" < "rc1" < "rc2" < "rc10".
   */
  lemma PreReleasesByNumber(s: string, w: string, d1: string, d2: string)
    requires StandardRelease(s) && Word(w) && AllDigits(d1) && AllDigits(d2)
    requires StrLt(Tag(w), Final)
    requires |d1| <= PadWidth && 0 < |d2| <= PadWidth
    requires Value(d1) < Value(d2)
    ensures KeyLt(Key(s + "-" + w + d1), Key(s + "-" + w + d2))
  {
    PreReleaseKey(s, w, d1);
    PreReleaseKey(s, w, d2);
    NumberPartOrder(d1, d2);
    var r := Release(s);
    var a, b := Key(s + "-" + w + d1), Key(s + "-" + w + d2);
    var k := |r| + 1;
    assert b[k] == Pad(d2);
    assert a[k] == if NumberPart(d1) == [] then Final else NumberPart(d1)[0];
    KeyLtAt(a, b, 0, k);
  }
}
