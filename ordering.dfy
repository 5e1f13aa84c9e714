/**
 * The orderings the version comparison relies on: Rust's `Ord` for `String`
 * (lexicographic over the UTF-8 bytes, which agrees with the order of the
 * code points) and for `Vec<String>` (lexicographic over the elements).
 */
module Ordering {

  /** `a < b` for two Rust strings, deciding from index `i` on (the first `i` characters are equal). */
  predicate StrLtFrom(a: string, b: string, i: nat)
    requires i <= |a| && i <= |b|
    decreases |a| - i
  {
    if i == |a| then i < |b|
    else if i == |b| then false
    else if a[i] != b[i] then a[i] < b[i]
    else StrLtFrom(a, b, i + 1)
  }

  /** `a < b` for two Rust strings. */
  predicate StrLt(a: string, b: string)
  {
    StrLtFrom(a, b, 0)
  }

  /** `a < b` for two `Vec<String>` values, deciding from index `i` on. */
  predicate KeyLtFrom(a: seq<string>, b: seq<string>, i: nat)
    requires i <= |a| && i <= |b|
    decreases |a| - i
  {
    if i == |a| then i < |b|
    else if i == |b| then false
    else if a[i] != b[i] then StrLt(a[i], b[i])
    else KeyLtFrom(a, b, i + 1)
  }

  /** `a < b` for two `Vec<String>` values. */
  predicate KeyLt(a: seq<string>, b: seq<string>)
  {
    KeyLtFrom(a, b, 0)
  }

  /** `a <= b` for two `Vec<String>` values. */
  predicate KeyLe(a: seq<string>, b: seq<string>)
  {
    !KeyLt(b, a)
  }

  /** The first index from `i` on at which two sequences differ, or the shorter length. */
  function FirstDifference<T(==)>(a: seq<T>, b: seq<T>, i: nat): (k: nat)
    requires i <= |a| && i <= |b|
    ensures i <= k <= |a| && k <= |b|
    ensures forall m :: i <= m < k ==> a[m] == b[m]
    ensures k == |a| || k == |b| || a[k] != b[k]
    decreases |a| - i
  {
    if i == |a| || i == |b| || a[i] != b[i] then i
    else FirstDifference(a, b, i + 1)
  }

  /** StrLt is the textbook lexicographic order: a proper prefix, or a smaller character where they first differ. */
  lemma {:induction false} StrLtAtFirstDifference(a: string, b: string, i: nat)
    requires i <= |a| && i <= |b|
    ensures var k := FirstDifference(a, b, i);
      StrLtFrom(a, b, i) <==> (k == |a| && k < |b|) || (k < |a| && k < |b| && a[k] < b[k])
    decreases |a| - i
  {
    if i < |a| && i < |b| && a[i] == b[i] {
      StrLtAtFirstDifference(a, b, i + 1);
    }
  }

  lemma {:induction false} StrLtIrreflexive(a: string, i: nat)
    requires i <= |a|
    ensures !StrLtFrom(a, a, i)
    decreases |a| - i
  {
    if i < |a| {
      StrLtIrreflexive(a, i + 1);
    }
  }

  lemma {:induction false} StrLtTransitive(a: string, b: string, c: string, i: nat)
    requires i <= |a| && i <= |b| && i <= |c|
    requires StrLtFrom(a, b, i) && StrLtFrom(b, c, i)
    ensures StrLtFrom(a, c, i)
    decreases |a| - i
  {
    if i < |a| && i < |b| && i < |c| && a[i] == b[i] && b[i] == c[i] {
      StrLtTransitive(a, b, c, i + 1);
    }
  }

  /** Two strings that agree on their first `i` characters are equal, or ordered one way and not the other. */
  lemma {:induction false} StrLtTrichotomy(a: string, b: string, i: nat)
    requires i <= |a| && i <= |b|
    requires a[..i] == b[..i]
    ensures a == b || StrLtFrom(a, b, i) || StrLtFrom(b, a, i)
    ensures !(StrLtFrom(a, b, i) && StrLtFrom(b, a, i))
    decreases |a| - i
  {
    if i < |a| && i < |b| && a[i] == b[i] {
      assert a[..i + 1] == a[..i] + [a[i]] && b[..i + 1] == b[..i] + [b[i]];
      StrLtTrichotomy(a, b, i + 1);
    } else if i == |a| && i == |b| {
      assert a == a[..i] && b == b[..i];
    }
  }

  lemma {:induction false} KeyLtIrreflexive(a: seq<string>, i: nat)
    requires i <= |a|
    ensures !KeyLtFrom(a, a, i)
    decreases |a| - i
  {
    if i < |a| {
      KeyLtIrreflexive(a, i + 1);
    }
  }

  lemma {:induction false} KeyLtTransitive(a: seq<string>, b: seq<string>, c: seq<string>, i: nat)
    requires i <= |a| && i <= |b| && i <= |c|
    requires KeyLtFrom(a, b, i) && KeyLtFrom(b, c, i)
    ensures KeyLtFrom(a, c, i)
    decreases |a| - i
  {
    if i < |a| && i < |b| && i < |c| {
      if a[i] == b[i] && b[i] == c[i] {
        KeyLtTransitive(a, b, c, i + 1);
      } else if a[i] != b[i] && b[i] != c[i] {
        StrLtTransitive(a[i], b[i], c[i], 0);
        if a[i] == c[i] {
          StrLtTrichotomy(a[i], b[i], 0);
        }
      }
    }
  }

  lemma {:induction false} KeyLtTrichotomy(a: seq<string>, b: seq<string>, i: nat)
    requires i <= |a| && i <= |b|
    requires a[..i] == b[..i]
    ensures a == b || KeyLtFrom(a, b, i) || KeyLtFrom(b, a, i)
    ensures !(KeyLtFrom(a, b, i) && KeyLtFrom(b, a, i))
    decreases |a| - i
  {
    if i < |a| && i < |b| {
      if a[i] == b[i] {
        assert a[..i + 1] == a[..i] + [a[i]] && b[..i + 1] == b[..i] + [b[i]];
        KeyLtTrichotomy(a, b, i + 1);
      } else {
        StrLtTrichotomy(a[i], b[i], 0);
      }
    } else if i == |a| && i == |b| {
      assert a == a[..i] && b == b[..i];
    }
  }

  /** The key order is a strict total order: irreflexive, transitive, and any two distinct keys are comparable one way only. */
  lemma KeyLtStrictTotalOrder(a: seq<string>, b: seq<string>, c: seq<string>)
    ensures !KeyLt(a, a)
    ensures KeyLt(a, b) && KeyLt(b, c) ==> KeyLt(a, c)
    ensures a == b || KeyLt(a, b) || KeyLt(b, a)
    ensures !(KeyLt(a, b) && KeyLt(b, a))
  {
    KeyLtIrreflexive(a, 0);
    if KeyLt(a, b) && KeyLt(b, c) {
      KeyLtTransitive(a, b, c, 0);
    }
    KeyLtTrichotomy(a, b, 0);
  }

  /** `<=` on keys is transitive; the sort and the selection of a candidate depend on it. */
  lemma KeyLeTransitive(a: seq<string>, b: seq<string>, c: seq<string>)
    requires KeyLe(a, b) && KeyLe(b, c)
    ensures KeyLe(a, c)
  {
    KeyLtStrictTotalOrder(c, a, b);
    KeyLtStrictTotalOrder(a, b, c);
  }

  /** Any two keys are related by `<=` one way or the other, and both ways only when equal. */
  lemma KeyLeTotal(a: seq<string>, b: seq<string>)
    ensures KeyLe(a, b) || KeyLe(b, a)
    ensures KeyLe(a, b) && KeyLe(b, a) ==> a == b
  {
    KeyLtStrictTotalOrder(a, b, b);
  }

  /** A tag (starting with '*') sorts before anything that starts with a digit, since '*' comes before '0'. */
  lemma StrLtByFirstChar(a: string, b: string)
    requires a != [] && b != [] && a[0] < b[0]
    ensures StrLt(a, b)
  {
  }

  /** A key is smaller than another when they agree up to index `k` and its element at `k` is smaller. */
  lemma {:induction false} KeyLtAt(a: seq<string>, b: seq<string>, i: nat, k: nat)
    requires i <= k < |a| && k < |b|
    requires forall m :: i <= m < k ==> a[m] == b[m]
    requires StrLt(a[k], b[k])
    ensures KeyLtFrom(a, b, i)
    decreases k - i
  {
    if i < k {
      KeyLtAt(a, b, i + 1, k);
    } else {
      StrLtIrreflexive(a[k], 0);
    }
  }
}
