/**
 * The version key of `src/core.rs`: `parse_version` turns any version
 * string into a sequence of strings, and comparing two such sequences
 * lexicographically is the version ordering. `standard_release` tells a
 * plain release ("1.2.3") from a pre-release.
 */
module VersionKey {
  import opened Ordering

  /** The token that closes every key: "no further pre-release qualifier". */
  const Final: string := "*final"
  /** What a `-` separator becomes once it is renamed and prefixed. */
  const FinalDash: string := "*final-"
  /** A numeric component equal to zero, once padded. */
  const PaddedZero: string := "00000000"
  /** The width numeric components are left-padded to. */
  const PadWidth: nat := 8

  predicate IsDigit(c: char) { '0' <= c <= '9' }
  predicate IsLetter(c: char) { 'a' <= c <= 'z' }
  predicate IsUpper(c: char) { 'A' <= c <= 'Z' }

  predicate AllDigits(s: string) { forall i :: 0 <= i < |s| ==> IsDigit(s[i]) }
  predicate AllLetters(s: string) { forall i :: 0 <= i < |s| ==> IsLetter(s[i]) }

  /** `to_lowercase` on one character, for ASCII. */
  function LowerChar(c: char): (d: char)
    ensures !IsUpper(d)
    ensures IsUpper(c) ==> IsLetter(d) && d as int == c as int + 32
    ensures !IsUpper(c) ==> d == c
  {
    if IsUpper(c) then (c as int + 32) as char else c
  }

  /** `to_lowercase` on the part of a string from index `i` on, for ASCII. */
  function LowerFrom(s: string, i: nat): (r: string)
    requires i <= |s|
    decreases |s| - i
  {
    if i == |s| then [] else [LowerChar(s[i])] + LowerFrom(s, i + 1)
  }

  /** Lower-casing maps each character on its own and keeps the length. */
  lemma {:induction false} LowerFromChars(s: string, i: nat)
    requires i <= |s|
    ensures |LowerFrom(s, i)| == |s| - i
    ensures forall m :: 0 <= m < |s| - i ==> LowerFrom(s, i)[m] == LowerChar(s[i + m])
    decreases |s| - i
  {
    if i < |s| {
      LowerFromChars(s, i + 1);
    }
  }

  /** `to_lowercase` on a string, for ASCII. */
  function Lower(s: string): (r: string)
  {
    LowerFrom(s, 0)
  }

  /** The classes of characters the component pattern `(\d+|[a-z]+|\.|-)` distinguishes. */
  datatype CharClass = Digit | Letter | Dot | Dash | Other

  function Class(c: char): CharClass
  {
    if IsDigit(c) then Digit
    else if IsLetter(c) then Letter
    else if c == '.' then Dot
    else if c == '-' then Dash
    else Other
  }

  /** The end of the run of characters of class `k` that starts at index `i` of `s`. */
  function RunEnd(s: string, i: nat, k: CharClass): (j: nat)
    requires i <= |s|
    ensures i <= j <= |s|
    ensures i < |s| && Class(s[i]) == k ==> i < j
    decreases |s| - i
  {
    if i < |s| && Class(s[i]) == k then RunEnd(s, i + 1, k) else i
  }

  /** A run is maximal: every character in it has class `k`, and the one after it does not. */
  lemma {:induction false} RunEndMaximal(s: string, i: nat, k: CharClass)
    requires i <= |s|
    ensures forall m :: i <= m < RunEnd(s, i, k) ==> Class(s[m]) == k
    ensures RunEnd(s, i, k) < |s| ==> Class(s[RunEnd(s, i, k)]) != k
    decreases |s| - i
  {
    if i < |s| && Class(s[i]) == k {
      RunEndMaximal(s, i + 1, k);
    }
  }

  /** A match of the component pattern. */
  predicate IsComponent(t: string)
  {
    t == "." || t == "-" || (t != [] && AllDigits(t)) || (t != [] && AllLetters(t))
  }

  /** Where the match that starts at index `i` ends, or `i + 1` when the character there is skipped. */
  function MatchEnd(s: string, i: nat): (j: nat)
    requires i < |s|
    ensures i < j <= |s|
  {
    match Class(s[i])
    case Digit | Letter => RunEnd(s, i, Class(s[i]))
    case _ => i + 1
  }

  /**
   * The successive matches of `(\d+|[a-z]+|\.|-)` in `s` from index `i` on,
   * left to right: a maximal run of digits, a maximal run of lower-case
   * letters, a single `.` or a single `-`; any other character is skipped.
   */
  function ComponentsFrom(s: string, i: nat): (cs: seq<string>)
    requires i <= |s|
    decreases |s| - i
  {
    if i == |s| then []
    else
      var j := MatchEnd(s, i);
      (if Class(s[i]) == Other then [] else [s[i..j]]) + ComponentsFrom(s, j)
  }

  /** Everything the scanner yields is a match of the component pattern. */
  lemma {:induction false} ComponentsAreMatches(s: string, i: nat)
    requires i <= |s|
    ensures forall m :: 0 <= m < |ComponentsFrom(s, i)| ==> IsComponent(ComponentsFrom(s, i)[m])
    decreases |s| - i
  {
    if i < |s| {
      var j := MatchEnd(s, i);
      ComponentsAreMatches(s, j);
      var c := s[i];
      if Class(c) == Digit || Class(c) == Letter {
        RunEndMaximal(s, i, Class(c));
        var t := s[i..j];
        assert forall m :: 0 <= m < |t| ==> t[m] == s[i + m];
        assert IsComponent(t);
      } else if Class(c) == Dot {
        assert s[i..j] == [c];
      } else if Class(c) == Dash {
        assert s[i..j] == [c];
      }
    }
  }

  /** `find_iter` of the component pattern over the whole of `s`. */
  function Components(s: string): (cs: seq<string>)
  {
    ComponentsFrom(s, 0)
  }

  /** The renaming of pre-release words and of the `-` separator. */
  function Normalize(t: string): (r: string)
  {
    match t
    case "pre" => "c"
    case "preview" => "c"
    case "-" => "final-"
    case "rc" => "c"
    case "dev" => "@"
    case "alpha" => "a"
    case "beta" => "b"
    case _ => t
  }

  /** `format!("{:0>8}", d)`: left-pad with '0' up to the width, never truncate. */
  function Pad(d: string): (r: string)
  {
    if |d| < PadWidth then seq(PadWidth - |d|, _ => '0') + d else d
  }

  /** What one component contributes to the key before clean-up: nothing, a padded number, or a `*` tag. */
  function PartOf(t: string): (ps: seq<string>)
  {
    var p := Normalize(t);
    if p == [] || p == "." then []
    else if IsDigit(p[0]) then [Pad(p)]
    else ["*" + p]
  }

  /** The parts of the first `n` components, in order. */
  function PartsUpTo(comps: seq<string>, n: nat): (ps: seq<string>)
    requires n <= |comps|
  {
    if n == 0 then [] else PartsUpTo(comps, n - 1) + PartOf(comps[n - 1])
  }

  /** The parts of all the components. */
  function Parts(comps: seq<string>): (ps: seq<string>)
  {
    PartsUpTo(comps, |comps|)
  }

  /** Pop `x` off the end of `stack` for as long as it is there. */
  function PopAll(stack: seq<string>, x: string): (r: seq<string>)
    ensures |r| <= |stack| && r == stack[..|r|]
    ensures r == [] || r[|r| - 1] != x
  {
    if stack != [] && stack[|stack| - 1] == x then PopAll(stack[..|stack| - 1], x) else stack
  }

  /** Popping removes nothing but copies of `x`. */
  lemma {:induction false} PopAllPrefix(stack: seq<string>, x: string)
    ensures forall i :: |PopAll(stack, x)| <= i < |stack| ==> stack[i] == x
  {
    if stack != [] && stack[|stack| - 1] == x {
      PopAllPrefix(stack[..|stack| - 1], x);
    }
  }

  predicate IsTag(p: string) { p != [] && p[0] == '*' }

  /** One step of the clean-up: push `p`, first popping what the tag `p` must not follow. */
  function Push(stack: seq<string>, p: string): (r: seq<string>)
  {
    if IsTag(p) then
      var s1 := if StrLt(p, "*final") then PopAll(stack, "*final-") else stack;
      PopAll(s1, "00000000") + [p]
    else stack + [p]
  }

  /** The clean-up pass over the first `n` parts, as a stack. */
  function CleanupUpTo(parts: seq<string>, n: nat): (r: seq<string>)
    requires n <= |parts|
  {
    if n == 0 then [] else Push(CleanupUpTo(parts, n - 1), parts[n - 1])
  }

  /** The clean-up pass over all the parts. */
  function Cleanup(parts: seq<string>): (r: seq<string>)
  {
    CleanupUpTo(parts, |parts|)
  }

  /** The version key of `s`: `parse_version(s)`. */
  function Key(s: string): (k: seq<string>)
  {
    Cleanup(Parts(Components(Lower(s))) + [Final])
  }

  /** Pop `x` off the end of `stack` while it is there, as the clean-up loops of the source do. */
  method PopWhile(stack: seq<string>, x: string) returns (r: seq<string>)
    ensures r == PopAll(stack, x)
  {
    r := stack;
    while r != [] && r[|r| - 1] == x
      invariant PopAll(r, x) == PopAll(stack, x)
    {
      r := r[..|r| - 1];
    }
  }

  /** `parse_version`, step by step as the source builds it. */
  method ParseVersion(s: string) returns (processed: seq<string>)
    ensures processed == Key(s)
  {
    var sLower := Lower(s);
    var matches := Components(sLower);
    var parts: seq<string> := [];
    for k := 0 to |matches|
      invariant parts == PartsUpTo(matches, k)
    {
      var partStr := Normalize(matches[k]);
      if partStr == [] || partStr == "." {
        continue;
      }
      if IsDigit(partStr[0]) {
        parts := parts + [Pad(partStr)];
      } else {
        parts := parts + ["*" + partStr];
      }
    }
    parts := parts + [Final];

    processed := [];
    for k := 0 to |parts|
      invariant processed == CleanupUpTo(parts, k)
    {
      var part := parts[k];
      if IsTag(part) {
        if StrLt(part, Final) {
          processed := PopWhile(processed, FinalDash);
        }
        processed := PopWhile(processed, PaddedZero);
      }
      processed := processed + [part];
    }
  }

  /** `standard_release` from index `i` on: the rest is ASCII digits and dots only. */
  predicate StandardReleaseFrom(v: string, i: nat)
    requires i <= |v|
    decreases |v| - i
  {
    i == |v| || ((IsDigit(v[i]) || v[i] == '.') && StandardReleaseFrom(v, i + 1))
  }

  /** `standard_release`: whether every character is an ASCII digit or a dot. */
  predicate StandardRelease(v: string)
  {
    StandardReleaseFrom(v, 0)
  }

  /** A version is standard exactly when all its characters are ASCII digits or dots; "" is standard. */
  lemma {:induction false} StandardReleaseChars(v: string, i: nat)
    requires i <= |v|
    ensures StandardReleaseFrom(v, i) <==> forall m :: i <= m < |v| ==> IsDigit(v[m]) || v[m] == '.'
    decreases |v| - i
  {
    if i < |v| {
      StandardReleaseChars(v, i + 1);
    }
  }
}
