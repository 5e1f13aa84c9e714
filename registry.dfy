/**
 * The selection half of `crates_io` in `src/core.rs`: from the versions
 * the registry lists, drop the yanked ones, sort the rest newest first
 * (a stable sort on the version key) and take the first one the
 * pre-release preference admits. The HTTP request and the JSON decoding
 * are not modelled: their outcome is a parameter.
 */
module Registry {
  import opened Wrappers
  import opened Ordering
  import opened VersionKey

  /** One published version, as the registry lists it. */
  datatype VersionInfo = VersionInfo(num: string, createdAt: string, yanked: bool)

  /** What a successful query yields: the chosen version and when it was published. */
  datatype CratesIoData = CratesIoData(version: string, createdAt: Option<string>)

  /** Why a query yields no version. */
  datatype RegistryError =
    | RequestFailed   // the request, its status or its JSON body failed
    | NoNonYanked     // "No non-yanked versions found"
    | NoSuitable      // "No suitable version found"

  /** Whether the pre-release preference admits a version. */
  predicate Eligible(v: VersionInfo, includePrereleases: bool)
  {
    includePrereleases || StandardRelease(v.num)
  }

  /** A version the selection may return: not yanked, and admitted. */
  predicate Candidate(v: VersionInfo, includePrereleases: bool)
  {
    !v.yanked && Eligible(v, includePrereleases)
  }

  /** The versions that are not yanked, in the order listed. */
  function NonYanked(vs: seq<VersionInfo>): (live: seq<VersionInfo>)
  {
    if vs == [] then []
    else NonYanked(vs[..|vs| - 1]) + (if vs[|vs| - 1].yanked then [] else [vs[|vs| - 1]])
  }

  /** The filter keeps exactly the versions that are not yanked. */
  lemma {:induction false} NonYankedMembers(vs: seq<VersionInfo>)
    ensures forall v :: v in NonYanked(vs) <==> v in vs && !v.yanked
    ensures NonYanked(vs) == [] <==> forall i :: 0 <= i < |vs| ==> vs[i].yanked
  {
    if vs != [] {
      var init := vs[..|vs| - 1];
      NonYankedMembers(init);
      assert vs == init + [vs[|vs| - 1]];
    }
  }

  /**
   * The selection is stated for a version key `key`; `crates_io` uses
   * `parse_version`, and the checker passes `VersionKey.Key`. Only the
   * facts that the lexicographic order on keys is a total order are used.
   */

  /** `a` comes before `b` in newest-first order: its key is at least `b`'s. */
  predicate NotOlder(key: string -> seq<string>, a: VersionInfo, b: VersionInfo)
  {
    KeyLe(key(b.num), key(a.num))
  }

  predicate SortedNewestFirst(key: string -> seq<string>, t: seq<VersionInfo>)
  {
    forall i, j :: 0 <= i < j < |t| ==> NotOlder(key, t[i], t[j])
  }

  /**
   * Insert `x` into `t`, moving it left past the versions whose key is
   * strictly smaller; versions with an equal key stay in front of it.
   */
  function Insert(key: string -> seq<string>, t: seq<VersionInfo>, x: VersionInfo): (r: seq<VersionInfo>)
  {
    if t == [] then [x]
    else if KeyLt(key(t[|t| - 1].num), key(x.num)) then Insert(key, t[..|t| - 1], x) + [t[|t| - 1]]
    else t + [x]
  }

  /**
   * `sort_by(|a, b| parse_version(&b.num).cmp(&parse_version(&a.num)))`:
   * a stable sort, newest first. Any stable sort gives this order.
   */
  function SortNewestFirst(key: string -> seq<string>, s: seq<VersionInfo>): (sorted: seq<VersionInfo>)
  {
    if s == [] then [] else Insert(key, SortNewestFirst(key, s[..|s| - 1]), s[|s| - 1])
  }

  lemma {:induction false} InsertPermutation(key: string -> seq<string>, t: seq<VersionInfo>, x: VersionInfo)
    ensures multiset(Insert(key, t, x)) == multiset(t) + multiset{x}
  {
    if t != [] && KeyLt(key(t[|t| - 1].num), key(x.num)) {
      var init := t[..|t| - 1];
      InsertPermutation(key, init, x);
      assert t == init + [t[|t| - 1]];
    }
  }

  /** Every version of `Insert(key, t, x)` is `x` or a version of `t`. */
  lemma {:induction false} InsertMembers(key: string -> seq<string>, t: seq<VersionInfo>, x: VersionInfo)
    ensures |Insert(key, t, x)| == |t| + 1
    ensures forall v :: v in Insert(key, t, x) <==> v == x || v in t
  {
    InsertPermutation(key, t, x);
    assert forall v :: v in Insert(key, t, x) <==> v in multiset(Insert(key, t, x));
    assert |multiset(Insert(key, t, x))| == |t| + 1;
  }

  lemma {:induction false} InsertSorted(key: string -> seq<string>, t: seq<VersionInfo>, x: VersionInfo)
    requires SortedNewestFirst(key, t)
    ensures SortedNewestFirst(key, Insert(key, t, x))
  {
    if t != [] {
      var init, y := t[..|t| - 1], t[|t| - 1];
      assert t == init + [y];
      if KeyLt(key(y.num), key(x.num)) {
        InsertSorted(key, init, x);
        InsertMembers(key, init, x);
        var r := Insert(key, init, x);
        forall v | v in r
          ensures NotOlder(key, v, y)
        {
          if v == x {
            KeyLtStrictTotalOrder(key(y.num), key(x.num), key(x.num));
          } else {
            var i :| 0 <= i < |init| && init[i] == v;
            assert t[i] == v;
          }
        }
        forall i, j | 0 <= i < j < |r + [y]|
          ensures NotOlder(key, (r + [y])[i], (r + [y])[j])
        {
          if j == |r| {
            assert (r + [y])[i] in r;
          } else {
            assert (r + [y])[i] == r[i] && (r + [y])[j] == r[j];
          }
        }
      } else {
        forall i | 0 <= i < |t|
          ensures NotOlder(key, t[i], x)
        {
          if i < |t| - 1 {
            KeyLeTransitive(key(x.num), key(y.num), key(t[i].num));
          }
        }
        var r := t + [x];
        forall i, j | 0 <= i < j < |r|
          ensures NotOlder(key, r[i], r[j])
        {
          if j < |t| {
            assert r[i] == t[i] && r[j] == t[j];
          }
        }
      }
    }
  }

  /** The sort orders newest first and is a permutation of its input. */
  lemma {:induction false} SortNewestFirstCorrect(key: string -> seq<string>, s: seq<VersionInfo>)
    ensures SortedNewestFirst(key, SortNewestFirst(key, s))
    ensures multiset(SortNewestFirst(key, s)) == multiset(s)
  {
    if s != [] {
      var init := s[..|s| - 1];
      SortNewestFirstCorrect(key, init);
      InsertSorted(key, SortNewestFirst(key, init), s[|s| - 1]);
      InsertPermutation(key, SortNewestFirst(key, init), s[|s| - 1]);
      assert s == init + [s[|s| - 1]];
    }
  }

  /** `iter().find(|v| include_prereleases || standard_release(&v.num))`. */
  function FirstEligible(t: seq<VersionInfo>, includePrereleases: bool): (found: Option<VersionInfo>)
  {
    if t == [] then None
    else if Eligible(t[0], includePrereleases) then Some(t[0])
    else FirstEligible(t[1..], includePrereleases)
  }

  lemma {:induction false} FirstEligibleSnoc(t: seq<VersionInfo>, y: VersionInfo, inc: bool)
    ensures FirstEligible(t + [y], inc) ==
      if FirstEligible(t, inc).Some? then FirstEligible(t, inc)
      else if Eligible(y, inc) then Some(y) else None
  {
    if t != [] {
      assert (t + [y])[1..] == t[1..] + [y];
      FirstEligibleSnoc(t[1..], y, inc);
    }
  }

  /** What `find` returns is the first admitted version of the list. */
  lemma {:induction false} FirstEligibleFound(t: seq<VersionInfo>, inc: bool)
    ensures FirstEligible(t, inc).Some? ==> FirstEligible(t, inc).value in t && Eligible(FirstEligible(t, inc).value, inc)
    ensures FirstEligible(t, inc).Some? ==> exists i ::
      && 0 <= i < |t| && t[i] == FirstEligible(t, inc).value
      && forall j :: 0 <= j < i ==> !Eligible(t[j], inc)
    ensures FirstEligible(t, inc).None? <==> forall i :: 0 <= i < |t| ==> !Eligible(t[i], inc)
  {
    if t != [] {
      FirstEligibleFound(t[1..], inc);
      assert forall i :: 1 <= i < |t| ==> t[i] == t[1..][i - 1];
      if !Eligible(t[0], inc) && FirstEligible(t[1..], inc).Some? {
        var i :| 0 <= i < |t[1..]| && t[1..][i] == FirstEligible(t[1..], inc).value
          && forall j :: 0 <= j < i ==> !Eligible(t[1..][j], inc);
        assert t[i + 1] == FirstEligible(t, inc).value;
        assert forall j :: 0 <= j < i + 1 ==> !Eligible(t[j], inc);
      } else if Eligible(t[0], inc) {
        assert t[0] == FirstEligible(t, inc).value;
      }
    }
  }

  /** One step of the reference selection: `x` replaces the best so far only when its key is strictly greater. */
  function Pick(key: string -> seq<string>, best: Option<VersionInfo>, x: VersionInfo, inc: bool): (r: Option<VersionInfo>)
  {
    if !Candidate(x, inc) then best
    else match best
      case None => Some(x)
      case Some(b) => if KeyLt(key(b.num), key(x.num)) then Some(x) else best
  }

  /**
   * The reference selection, independent of any sort: a left-to-right
   * scan keeping the first candidate with the greatest key.
   */
  function BestOf(key: string -> seq<string>, vs: seq<VersionInfo>, inc: bool): (best: Option<VersionInfo>)
  {
    if vs == [] then None else Pick(key, BestOf(key, vs[..|vs| - 1], inc), vs[|vs| - 1], inc)
  }

  /** Inserting into a sorted list and then finding is picking from what was found before. */
  lemma {:induction false} FirstEligibleInsert(key: string -> seq<string>, t: seq<VersionInfo>, x: VersionInfo, inc: bool)
    requires SortedNewestFirst(key, t) && !x.yanked
    ensures FirstEligible(Insert(key, t, x), inc) == Pick(key, FirstEligible(t, inc), x, inc)
  {
    if t == [] {
      assert Insert(key, t, x) == [] + [x];
      FirstEligibleSnoc([], x, inc);
    } else {
      var init, y := t[..|t| - 1], t[|t| - 1];
      assert t == init + [y];
      FirstEligibleSnoc(init, y, inc);
      if KeyLt(key(y.num), key(x.num)) {
        assert SortedNewestFirst(key, init);
        FirstEligibleInsert(key, init, x, inc);
        FirstEligibleSnoc(Insert(key, init, x), y, inc);
      } else {
        FirstEligibleSnoc(t, x, inc);
        FirstEligibleFound(t, inc);
        if FirstEligible(t, inc).Some? {
          var b := FirstEligible(t, inc).value;
          var i :| 0 <= i < |t| && t[i] == b;
          if i < |t| - 1 {
            assert NotOlder(key, t[i], y);
            KeyLeTransitive(key(x.num), key(y.num), key(b.num));
          }
        }
      }
    }
  }

  /** Sorting stably and taking the first admitted version is the reference selection. */
  lemma {:induction false} FirstEligibleOfSorted(key: string -> seq<string>, vs: seq<VersionInfo>, inc: bool)
    requires forall i :: 0 <= i < |vs| ==> !vs[i].yanked
    ensures FirstEligible(SortNewestFirst(key, vs), inc) == BestOf(key, vs, inc)
  {
    if vs != [] {
      var init := vs[..|vs| - 1];
      FirstEligibleOfSorted(key, init, inc);
      SortNewestFirstCorrect(key, init);
      FirstEligibleInsert(key, SortNewestFirst(key, init), vs[|vs| - 1], inc);
    }
  }

  /** Yanked versions never change the reference selection. */
  lemma {:induction false} BestOfNonYanked(key: string -> seq<string>, vs: seq<VersionInfo>, inc: bool)
    ensures BestOf(key, NonYanked(vs), inc) == BestOf(key, vs, inc)
  {
    if vs != [] {
      var init, x := vs[..|vs| - 1], vs[|vs| - 1];
      BestOfNonYanked(key, init, inc);
      if x.yanked {
        assert NonYanked(vs) == NonYanked(init) + [];
        assert NonYanked(init) + [] == NonYanked(init);
      } else {
        var n := NonYanked(init) + [x];
        assert NonYanked(vs) == n;
        assert n[..|n| - 1] == NonYanked(init);
      }
    }
  }

  /** Version `i` of `vs` is the one to select: a candidate, with the greatest key, and the first with that key. */
  predicate BestAt(key: string -> seq<string>, vs: seq<VersionInfo>, inc: bool, i: int)
  {
    && 0 <= i < |vs|
    && Candidate(vs[i], inc)
    && (forall j :: 0 <= j < |vs| && Candidate(vs[j], inc) ==> NotOlder(key, vs[i], vs[j]))
    && (forall j :: 0 <= j < i && Candidate(vs[j], inc) ==> KeyLt(key(vs[j].num), key(vs[i].num)))
  }

  /** A version that is no candidate leaves the best one where it was. */
  lemma BestAtSkip(key: string -> seq<string>, vs: seq<VersionInfo>, inc: bool, i: int)
    requires vs != [] && BestAt(key, vs[..|vs| - 1], inc, i) && !Candidate(vs[|vs| - 1], inc)
    ensures BestAt(key, vs, inc, i)
  {
    var init := vs[..|vs| - 1];
    assert forall j :: 0 <= j < |init| ==> vs[j] == init[j];
  }

  /** A candidate whose key is not greater than the best one's leaves the best one where it was. */
  lemma BestAtKeep(key: string -> seq<string>, vs: seq<VersionInfo>, inc: bool, i: int)
    requires vs != [] && BestAt(key, vs[..|vs| - 1], inc, i)
    requires !KeyLt(key(vs[i].num), key(vs[|vs| - 1].num))
    ensures BestAt(key, vs, inc, i)
  {
    var init := vs[..|vs| - 1];
    assert forall j :: 0 <= j < |init| ==> vs[j] == init[j];
  }

  /** A candidate whose key is greater than the best one's becomes the best one. */
  lemma BestAtReplace(key: string -> seq<string>, vs: seq<VersionInfo>, inc: bool, i: int)
    requires vs != [] && BestAt(key, vs[..|vs| - 1], inc, i) && Candidate(vs[|vs| - 1], inc)
    requires KeyLt(key(vs[i].num), key(vs[|vs| - 1].num))
    ensures BestAt(key, vs, inc, |vs| - 1)
  {
    var n := |vs| - 1;
    var init, x, b := vs[..n], vs[n], vs[i];
    assert forall j :: 0 <= j < n ==> vs[j] == init[j];
    forall j | 0 <= j < |vs| && Candidate(vs[j], inc)
      ensures NotOlder(key, x, vs[j]) && (j < n ==> KeyLt(key(vs[j].num), key(x.num)))
    {
      if j < n {
        assert NotOlder(key, init[i], init[j]);
        KeyLeLtTransitive(key(vs[j].num), key(b.num), key(x.num));
        KeyLtStrictTotalOrder(key(vs[j].num), key(x.num), key(x.num));
      } else {
        KeyLtStrictTotalOrder(key(x.num), key(x.num), key(x.num));
      }
    }
  }

  /** The first candidate is the best one so far. */
  lemma BestAtFirst(key: string -> seq<string>, vs: seq<VersionInfo>, inc: bool)
    requires vs != [] && Candidate(vs[|vs| - 1], inc)
    requires forall j :: 0 <= j < |vs| - 1 ==> !Candidate(vs[j], inc)
    ensures BestAt(key, vs, inc, |vs| - 1)
  {
    KeyLtStrictTotalOrder(key(vs[|vs| - 1].num), key(vs[|vs| - 1].num), key(vs[|vs| - 1].num));
  }

  /** The reference selection finds nothing exactly when there is no candidate, and otherwise the best one. */
  lemma {:induction false} BestOfSpec(key: string -> seq<string>, vs: seq<VersionInfo>, inc: bool)
    ensures BestOf(key, vs, inc).None? <==> forall i :: 0 <= i < |vs| ==> !Candidate(vs[i], inc)
    ensures BestOf(key, vs, inc).Some? ==> exists i :: BestAt(key, vs, inc, i) && vs[i] == BestOf(key, vs, inc).value
  {
    if vs != [] {
      var n := |vs| - 1;
      var init, x := vs[..n], vs[n];
      BestOfSpec(key, init, inc);
      assert forall j :: 0 <= j < n ==> vs[j] == init[j];
      var b := BestOf(key, init, inc);
      if b.Some? {
        var i :| BestAt(key, init, inc, i) && init[i] == b.value;
        if !Candidate(x, inc) {
          BestAtSkip(key, vs, inc, i);
        } else if KeyLt(key(b.value.num), key(x.num)) {
          BestAtReplace(key, vs, inc, i);
        } else {
          BestAtKeep(key, vs, inc, i);
        }
      } else if Candidate(x, inc) {
        BestAtFirst(key, vs, inc);
      }
    }
  }

  /** There is one version to select, if any. */
  lemma BestAtUnique(key: string -> seq<string>, vs: seq<VersionInfo>, inc: bool, i: int, j: int)
    requires BestAt(key, vs, inc, i) && BestAt(key, vs, inc, j)
    ensures i == j
  { }

  /** `a <= b < c` gives `a < c`. */
  lemma KeyLeLtTransitive(a: seq<string>, b: seq<string>, c: seq<string>)
    requires KeyLe(a, b) && KeyLt(b, c)
    ensures KeyLt(a, c)
  {
    KeyLtStrictTotalOrder(a, b, c);
    KeyLeTotal(a, b);
  }

  /** The selection `crates_io` makes from the versions the registry lists. */
  function Select(key: string -> seq<string>, vs: seq<VersionInfo>, includePrereleases: bool): (r: Result<CratesIoData, RegistryError>)
  {
    var live := NonYanked(vs);
    if live == [] then Err(NoNonYanked)
    else match FirstEligible(SortNewestFirst(key, live), includePrereleases)
      case None => Err(NoSuitable)
      case Some(v) => Ok(CratesIoData(v.num, Some(v.createdAt)))
  }

  /**
   * What the selection returns: an error when every version is yanked or
   * none is admitted, and otherwise the version (with its publication
   * time) that is not yanked, is admitted, has the greatest key of all
   * such versions, and is listed first among those with that key.
   */
  lemma SelectSpec(key: string -> seq<string>, vs: seq<VersionInfo>, inc: bool)
    ensures Select(key, vs, inc) == Err(NoNonYanked) <==> forall i :: 0 <= i < |vs| ==> vs[i].yanked
    ensures Select(key, vs, inc) == Err(NoSuitable) <==>
      (exists i :: 0 <= i < |vs| && !vs[i].yanked) && forall i :: 0 <= i < |vs| ==> !Candidate(vs[i], inc)
    ensures Select(key, vs, inc).Err? ==> Select(key, vs, inc).error != RequestFailed
    ensures Select(key, vs, inc).Ok? ==> exists i ::
      BestAt(key, vs, inc, i) && Select(key, vs, inc).value == CratesIoData(vs[i].num, Some(vs[i].createdAt))
  {
    var live := NonYanked(vs);
    NonYankedMembers(vs);
    BestOfSpec(key, vs, inc);
    BestOfNonYanked(key, vs, inc);
    if live != [] {
      assert forall i :: 0 <= i < |live| ==> live[i] in live;
      FirstEligibleOfSorted(key, live, inc);
      if forall i :: 0 <= i < |vs| ==> !Candidate(vs[i], inc) {
        assert exists i :: 0 <= i < |vs| && !vs[i].yanked by {
          var v := live[0];
          assert v in vs;
        }
      }
    }
  }

  /** Without pre-releases, the selected version is a standard release. */
  lemma SelectStandard(key: string -> seq<string>, vs: seq<VersionInfo>)
    ensures Select(key, vs, false).Ok? ==> StandardRelease(Select(key, vs, false).value.version)
  {
    SelectSpec(key, vs, false);
  }

  /** Sort `a` in place, newest first and stably, by insertion. */
  method SortInPlace(key: string -> seq<string>, a: array<VersionInfo>)
    modifies a
    ensures a[..] == SortNewestFirst(key, old(a[..]))
  {
    ghost var s := a[..];
    for i := 0 to a.Length
      invariant a[..i] == SortNewestFirst(key, s[..i])
      invariant a[i..] == s[i..]
    {
      ghost var before := a[..];
      InsertLast(key, a, i);
      SortedPrefixStep(key, s, before, a[..], i);
    }
    assert a[..] == a[..a.Length] && s == s[..a.Length];
  }

  /** One step of the outer loop: the sorted prefix grows by `s[i]`. */
  lemma SortedPrefixStep(key: string -> seq<string>, s: seq<VersionInfo>, before: seq<VersionInfo>, after: seq<VersionInfo>, i: nat)
    requires i < |s| == |before| == |after|
    requires before[..i] == SortNewestFirst(key, s[..i]) && before[i..] == s[i..]
    requires after[..i + 1] == Insert(key, before[..i], before[i])
    requires after[i + 1..] == before[i + 1..]
    ensures after[..i + 1] == SortNewestFirst(key, s[..i + 1])
    ensures after[i + 1..] == s[i + 1..]
  {
    assert before[i] == s[i];
    assert s[..i + 1][..i] == s[..i];
    assert before[i + 1..] == before[i..][1..];
    assert s[i + 1..] == s[i..][1..];
  }

  /**
   * Insertion of `a[i]` into the sorted prefix `a[..i]`: the entries
   * with a smaller key shift one place right.
   */
  method InsertLast(key: string -> seq<string>, a: array<VersionInfo>, i: nat)
    requires i < a.Length
    modifies a
    ensures a[..i + 1] == Insert(key, old(a[..i]), old(a[i]))
    ensures a[i + 1..] == old(a[i + 1..])
  {
    var x := a[i];
    ghost var sorted := a[..i];
    ghost var rest := a[i + 1..];
    var j := MakeRoom(key, a, i, x);
    a[j] := x;
    Shifted(a[..], sorted, x, j);
    assert a[i + 1..] == rest;
  }

  /**
   * The inner loop of the insertion: shifts right, from `a[i - 1]` down,
   * the entries whose key is smaller than that of `x`, and returns the
   * place left free for `x`.
   */
  method MakeRoom(key: string -> seq<string>, a: array<VersionInfo>, i: nat, x: VersionInfo) returns (j: nat)
    requires i < a.Length
    modifies a
    ensures j <= i
    ensures forall k :: 0 <= k < j ==> a[k] == old(a[k])
    ensures forall k :: j < k <= i ==> a[k] == old(a[k - 1])
    ensures forall k :: i < k < a.Length ==> a[k] == old(a[k])
    ensures Insert(key, old(a[..i]), x) == old(a[..i])[..j] + [x] + old(a[..i])[j..]
  {
    ghost var sorted := a[..i];
    j := i;
    while j > 0 && KeyLt(key(a[j - 1].num), key(x.num))
      invariant 0 <= j <= i
      invariant forall k :: 0 <= k < j ==> a[k] == sorted[k]
      invariant forall k :: j < k <= i ==> a[k] == sorted[k - 1]
      invariant forall k :: i < k < a.Length ==> a[k] == old(a[k])
      invariant forall k :: j <= k < i ==> KeyLt(key(sorted[k].num), key(x.num))
    {
      a[j] := a[j - 1];
      j := j - 1;
    }
    InsertPlace(key, sorted, x, j);
  }

  /**
   * `x` goes in at `j` when every entry from `j` on has a smaller key
   * and the entry before `j`, if any, does not.
   */
  lemma {:induction false} InsertPlace(key: string -> seq<string>, sorted: seq<VersionInfo>, x: VersionInfo, j: nat)
    requires j <= |sorted|
    requires forall k :: j <= k < |sorted| ==> KeyLt(key(sorted[k].num), key(x.num))
    requires j == 0 || !KeyLt(key(sorted[j - 1].num), key(x.num))
    ensures Insert(key, sorted, x) == sorted[..j] + [x] + sorted[j..]
    decreases |sorted|
  {
    if j == |sorted| {
      assert sorted[..j] == sorted && sorted[j..] == [];
    } else {
      var init, last := sorted[..|sorted| - 1], sorted[|sorted| - 1];
      assert forall k :: j <= k < |init| ==> init[k] == sorted[k];
      InsertPlace(key, init, x, j);
      InsertPlaceStep(sorted, x, j);
    }
  }

  /** The sequence bookkeeping of one step of `InsertPlace`. */
  lemma InsertPlaceStep(sorted: seq<VersionInfo>, x: VersionInfo, j: nat)
    requires j < |sorted|
    ensures var init := sorted[..|sorted| - 1];
      init[..j] + [x] + init[j..] + [sorted[|sorted| - 1]] == sorted[..j] + [x] + sorted[j..]
  {
    var init := sorted[..|sorted| - 1];
    assert init[..j] == sorted[..j];
    assert init[j..] + [sorted[|sorted| - 1]] == sorted[j..];
  }

  /** The array after the shifts, as a sequence. */
  lemma Shifted(t: seq<VersionInfo>, sorted: seq<VersionInfo>, x: VersionInfo, j: nat)
    requires j <= |sorted| < |t|
    requires forall k :: 0 <= k < j ==> t[k] == sorted[k]
    requires t[j] == x
    requires forall k :: j < k <= |sorted| ==> t[k] == sorted[k - 1]
    ensures t[..|sorted| + 1] == sorted[..j] + [x] + sorted[j..]
  {
    var r := sorted[..j] + [x] + sorted[j..];
    assert forall k :: 0 <= k <= |sorted| ==> t[k] == r[k];
  }

  /**
   * `crates_io` without the HTTP request: `fetched` is the decoded
   * version list, or `None` when the request, its status or its JSON
   * failed.
   */
  method CratesIo(key: string -> seq<string>, fetched: Option<seq<VersionInfo>>, includePrereleases: bool)
    returns (r: Result<CratesIoData, RegistryError>)
    ensures fetched.None? ==> r == Err(RequestFailed)
    ensures fetched.Some? ==> r == Select(key, fetched.value, includePrereleases)
  {
    if fetched.None? {
      return Err(RequestFailed);
    }
    var versions := NonYanked(fetched.value);
    if |versions| == 0 {
      return Err(NoNonYanked);
    }
    var a := new VersionInfo[|versions|](i requires 0 <= i < |versions| => versions[i]);
    assert a[..] == versions;
    SortInPlace(key, a);
    match FirstEligible(a[..], includePrereleases)
    case None =>
      r := Err(NoSuitable);
    case Some(v) =>
      r := Ok(CratesIoData(v.num, Some(v.createdAt)));
  }
}
