/**
 * Spellings that give the same version key: letter case, the aliases of
 * the pre-release words, and trailing zero components.
 */
module VersionKeyEquivalence {
  import opened Ordering
  import opened VersionKey

  /** Two characters that the component pattern would put in one run. */
  predicate Joined(c: char, d: char)
  {
    Class(c) == Class(d) && (Class(c) == Digit || Class(c) == Letter)
  }

  /** Lower-casing works character by character. */
  lemma LowerAppend(s: string, t: string)
    ensures Lower(s + t) == Lower(s) + Lower(t)
  {
    var l, r := Lower(s + t), Lower(s) + Lower(t);
    LowerFromChars(s + t, 0);
    LowerFromChars(s, 0);
    LowerFromChars(t, 0);
    assert |l| == |r|;
    forall i | 0 <= i < |l|
      ensures l[i] == r[i]
    {
      if i < |s| {
        assert (s + t)[i] == s[i];
      } else {
        assert (s + t)[i] == t[i - |s|];
      }
    }
  }

  /** A run inside `u` is found at the same place inside `t + u`. */
  lemma {:induction false} RunEndShift(t: string, u: string, j: nat, k: CharClass)
    requires j <= |u|
    ensures RunEnd(t + u, |t| + j, k) == |t| + RunEnd(u, j, k)
    decreases |u| - j
  {
    if j < |u| {
      assert (t + u)[|t| + j] == u[j];
      if Class(u[j]) == k {
        RunEndShift(t, u, j + 1, k);
      }
    }
  }

  /** A match inside `u` is found at the same place inside `t + u`. */
  lemma MatchEndShift(t: string, u: string, j: nat)
    requires j < |u|
    ensures (t + u)[|t| + j] == u[j]
    ensures MatchEnd(t + u, |t| + j) == |t| + MatchEnd(u, j)
  {
    RunEndShift(t, u, j, Class(u[j]));
  }

  /** The matches inside `u` are the same inside `t + u`. */
  lemma {:induction false} ComponentsShift(t: string, u: string, j: nat)
    requires j <= |u|
    ensures ComponentsFrom(t + u, |t| + j) == ComponentsFrom(u, j)
    decreases |u| - j
  {
    if j < |u| {
      var s := t + u;
      var e := MatchEnd(u, j);
      MatchEndShift(t, u, j);
      assert s[|t| + j..|t| + e] == u[j..e];
      ComponentsShift(t, u, e);
      assert ComponentsFrom(s, |t| + j) ==
        (if Class(u[j]) == Other then [] else [s[|t| + j..|t| + e]]) + ComponentsFrom(s, |t| + e);
    }
  }

  /** A run that starts in `t` stops where it stops in `t` when `t` and `u` do not join. */
  lemma {:induction false} RunEndPrefix(t: string, u: string, i: nat, k: CharClass)
    requires i < |t|
    requires k == Digit || k == Letter
    requires u == [] || !Joined(t[|t| - 1], u[0])
    requires forall m :: i <= m < |t| ==> Class(t[m]) == k
    ensures RunEnd(t + u, i, k) == |t|
    decreases |t| - i
  {
    var s := t + u;
    assert s[i] == t[i];
    if i + 1 < |t| {
      RunEndPrefix(t, u, i + 1, k);
    } else if u != [] {
      assert s[i + 1] == u[0];
    }
  }

  lemma {:induction false} RunEndInside(t: string, u: string, i: nat, k: CharClass)
    requires i < |t|
    requires RunEnd(t, i, k) < |t|
    ensures RunEnd(t + u, i, k) == RunEnd(t, i, k)
    decreases |t| - i
  {
    var s := t + u;
    assert s[i] == t[i];
    if Class(t[i]) == k {
      RunEndInside(t, u, i + 1, k);
    }
  }

  /** A match that starts in `t` ends where it ends in `t` when no run crosses the seam. */
  lemma MatchEndAppend(t: string, u: string, i: nat)
    requires i < |t|
    requires u == [] || !Joined(t[|t| - 1], u[0])
    ensures (t + u)[i] == t[i]
    ensures MatchEnd(t + u, i) == MatchEnd(t, i)
  {
    var k := Class(t[i]);
    if k == Digit || k == Letter {
      if RunEnd(t, i, k) < |t| {
        RunEndInside(t, u, i, k);
      } else {
        RunEndMaximal(t, i, k);
        RunEndPrefix(t, u, i, k);
      }
    }
  }

  /** The matches of `t + u` are those of `t` followed by those of `u` when no run crosses the seam. */
  lemma {:induction false} ComponentsFromAppend(t: string, u: string, i: nat)
    requires i <= |t|
    requires t == [] || u == [] || !Joined(t[|t| - 1], u[0])
    ensures ComponentsFrom(t + u, i) == ComponentsFrom(t, i) + ComponentsFrom(u, 0)
    decreases |t| - i
  {
    var s := t + u;
    if i == |t| {
      ComponentsShift(t, u, 0);
    } else {
      var c := t[i];
      var e := MatchEnd(t, i);
      MatchEndAppend(t, u, i);
      assert s[i..e] == t[i..e];
      ComponentsFromAppend(t, u, e);
      assert ComponentsFrom(s, i) == (if Class(c) == Other then [] else [s[i..e]]) + ComponentsFrom(s, e);
    }
  }

  lemma ComponentsAppend(t: string, u: string)
    requires t == [] || u == [] || !Joined(t[|t| - 1], u[0])
    ensures Components(t + u) == Components(t) + Components(u)
  {
    ComponentsFromAppend(t, u, 0);
  }

  /** One step of `PartsUpToAppend`: the next component of `b` adds its part at the end. */
  lemma PartsUpToAppendStep(a: seq<string>, b: seq<string>, n: nat)
    requires 0 < n <= |b|
    requires PartsUpTo(a + b, |a| + n - 1) == PartsUpTo(a, |a|) + PartsUpTo(b, n - 1)
    ensures PartsUpTo(a + b, |a| + n) == PartsUpTo(a, |a|) + PartsUpTo(b, n)
  {
    var pa, pb, pt := PartsUpTo(a, |a|), PartsUpTo(b, n - 1), PartOf(b[n - 1]);
    assert (a + b)[|a| + n - 1] == b[n - 1];
    assert pa + (pb + pt) == (pa + pb) + pt;
  }

  lemma {:induction false} PartsUpToAppend(a: seq<string>, b: seq<string>, n: nat)
    requires n <= |b|
    ensures PartsUpTo(a + b, |a| + n) == PartsUpTo(a, |a|) + PartsUpTo(b, n)
  {
    if n == 0 {
      PartsUpToPrefix(a, b, |a|);
    } else {
      PartsUpToAppend(a, b, n - 1);
      PartsUpToAppendStep(a, b, n);
    }
  }

  lemma {:induction false} PartsUpToPrefix(a: seq<string>, b: seq<string>, n: nat)
    requires n <= |a|
    ensures PartsUpTo(a + b, n) == PartsUpTo(a, n)
  {
    if n > 0 {
      PartsUpToPrefix(a, b, n - 1);
      assert (a + b)[n - 1] == a[n - 1];
    }
  }

  lemma PartsAppend(a: seq<string>, b: seq<string>)
    ensures Parts(a + b) == Parts(a) + Parts(b)
  {
    PartsUpToAppend(a, b, |b|);
  }

  lemma {:induction false} CleanupUpToPrefix(a: seq<string>, b: seq<string>, n: nat)
    requires n <= |a|
    ensures CleanupUpTo(a + b, n) == CleanupUpTo(a, n)
  {
    if n > 0 {
      CleanupUpToPrefix(a, b, n - 1);
      assert (a + b)[n - 1] == a[n - 1];
    }
  }

  /** The key is `Cleanup` of the parts of the lower-cased components, with `*final` appended. */
  lemma KeyOfParts(s: string, ps: seq<string>)
    requires Parts(Components(Lower(s))) == ps
    ensures Key(s) == Cleanup(ps + [Final])
  {
  }

  /** A trailing zero part followed by `*final` is popped again: it leaves no trace in the key. */
  lemma CleanupTrailingZero(ps: seq<string>)
    ensures Cleanup(ps + [PaddedZero, Final]) == Cleanup(ps + [Final])
  {
    var a, b := ps + [PaddedZero, Final], ps + [Final];
    CleanupUpToPrefix(ps, [PaddedZero, Final], |ps|);
    CleanupUpToPrefix(ps, [Final], |ps|);
    var c := CleanupUpTo(ps, |ps|);
    assert a[|ps|] == PaddedZero && a[|ps| + 1] == Final && b[|ps|] == Final;
    assert CleanupUpTo(a, |ps| + 1) == c + [PaddedZero];
    assert !StrLt(Final, Final) by { StrLtIrreflexive(Final, 0); }
    assert PopAll(c + [PaddedZero], PaddedZero) == PopAll(c, PaddedZero) by {
      assert (c + [PaddedZero])[..|c|] == c;
    }
  }

  /** All-zero components of at most eight digits pad to the zero part. */
  predicate ZeroRun(z: string)
  {
    0 < |z| <= PadWidth && forall i :: 0 <= i < |z| ==> z[i] == '0'
  }

  /** What a "." followed by a zero run contributes: a single zero part. */
  lemma ZeroComponent(z: string)
    requires ZeroRun(z)
    ensures Lower("." + z) == "." + z
    ensures Parts(Components("." + z)) == [PaddedZero]
  {
    var dz := "." + z;
    assert forall i :: 0 <= i < |dz| ==> !IsUpper(dz[i]);
    LowerFromChars(dz, 0);
    assert Components(dz) == [".", z] by {
      assert dz[0] == '.' && Class(dz[1]) == Digit;
      var e := RunEnd(dz, 1, Digit);
      RunEndMaximal(dz, 1, Digit);
      assert forall m :: 1 <= m < |dz| ==> dz[m] == z[m - 1];
      assert e == |dz|;
      assert dz[1..e] == z;
      assert ComponentsFrom(dz, 1) == [z] + ComponentsFrom(dz, e);
    }
    assert Normalize(z) == z by { assert z[0] == '0'; }
    var pz := Pad(z);
    assert |pz| == |PaddedZero|;
    forall i | 0 <= i < |pz|
      ensures pz[i] == PaddedZero[i]
    {
      if i >= PadWidth - |z| {
        assert pz[i] == z[i - (PadWidth - |z|)];
      }
    }
    assert pz == PaddedZero;
    assert PartOf(z) == [PaddedZero];
    assert PartsUpTo([".", z], 1) == [];
  }

  /**
   * Appending a zero component (".0", ".00", … up to eight zeros) never
   * changes a key: "1.0" and "1.0.0" are the same version.
   */
  lemma TrailingZeroComponent(s: string, z: string)
    requires ZeroRun(z)
    ensures Key(s + "." + z) == Key(s)
  {
    var dz := "." + z;
    assert s + "." + z == s + dz;
    ZeroComponent(z);
    LowerAppend(s, dz);
    var ls := Lower(s);
    ComponentsAppend(ls, dz);
    var cs := Components(ls);
    PartsAppend(cs, Components(dz));
    assert Parts(Components(Lower(s + dz))) + [Final] == Parts(cs) + [PaddedZero, Final];
    CleanupTrailingZero(Parts(cs));
  }

  /** Every character of a word is a lower-case letter. */
  predicate Word(w: string)
  {
    w != [] && AllLetters(w)
  }

  lemma WordComponents(w: string)
    requires Word(w)
    ensures Lower(w) == w
    ensures Components(w) == [w]
  {
    assert forall i :: 0 <= i < |w| ==> !IsUpper(w[i]);
    LowerFromChars(w, 0);
    assert Class(w[0]) == Letter;
    var e := RunEnd(w, 0, Letter);
    RunEndMaximal(w, 0, Letter);
    assert e == |w|;
    assert w[0..e] == w;
    assert ComponentsFrom(w, 0) == [w] + ComponentsFrom(w, e);
  }

  /** The letter case of a character, and so of a word's neighbour, never matters. */
  predicate LetterBoundary(c: char)
  {
    Class(LowerChar(c)) == Letter
  }

  /** The key of `p + w + q` once the word `w` stands as a component of its own. */
  lemma KeyAroundWord(p: string, w: string, q: string)
    requires Word(w)
    requires p == [] || !LetterBoundary(p[|p| - 1])
    requires q == [] || !LetterBoundary(q[0])
    ensures Key(p + w + q) == Cleanup(Parts(Components(Lower(p))) + PartOf(w) + Parts(Components(Lower(q))) + [Final])
  {
    WordComponents(w);
    LowerAppend(p + w, q);
    LowerAppend(p, w);
    var lp, lq := Lower(p), Lower(q);
    LowerFromChars(p, 0);
    LowerFromChars(q, 0);
    assert lp == [] || lp[|lp| - 1] == LowerChar(p[|p| - 1]);
    assert lq == [] || lq[0] == LowerChar(q[0]);
    ComponentsAppend(lp, w);
    assert (lp + w)[|lp + w| - 1] == w[|w| - 1];
    ComponentsAppend(lp + w, lq);
    var cp, cq := Components(lp), Components(lq);
    PartsAppend(cp + [w], cq);
    PartsAppend(cp, [w]);
    assert Parts([w]) == PartOf(w) by {
      assert PartsUpTo([w], 1) == PartsUpTo([w], 0) + PartOf(w);
    }
  }

  /**
   * Two pre-release words the source renames alike ("rc", "pre" and
   * "preview"; "alpha" and "a"; "beta" and "b") give the same key in the
   * same place.
   */
  lemma AliasedWords(p: string, w1: string, w2: string, q: string)
    requires Word(w1) && Word(w2) && Normalize(w1) == Normalize(w2)
    requires p == [] || !LetterBoundary(p[|p| - 1])
    requires q == [] || !LetterBoundary(q[0])
    ensures Key(p + w1 + q) == Key(p + w2 + q)
  {
    KeyAroundWord(p, w1, q);
    KeyAroundWord(p, w2, q);
  }

  /** `to_lowercase` runs first: strings that differ only in ASCII letter case have the same key. */
  lemma KeyIgnoresCase(s: string, t: string)
    requires |s| == |t|
    requires forall i :: 0 <= i < |s| ==> LowerChar(s[i]) == LowerChar(t[i])
    ensures Key(s) == Key(t)
  {
    LowerFromChars(s, 0);
    LowerFromChars(t, 0);
    assert Lower(s) == Lower(t);
  }
}
