/** The JavaScript string primitives the core relies on: `toLowerCase`,
    `includes`, `join`, `split` on a one-character separator, `trim`,
    `replace` with a string pattern, `replaceAll` of one character, and the
    default string order used by `Array.prototype.sort`. */
module Text {

  // ---------------------------------------------------------------------
  // Case mapping (ASCII letters only)

  function LowerChar(c: char): char {
    if 'A' <= c <= 'Z' then (c as int + 32) as char else c
  }

  predicate IsUpper(c: char) {
    'A' <= c <= 'Z'
  }

  /** `s.toLowerCase()` restricted to the ASCII letters. */
  function Lower(s: string): (r: string)
    ensures |r| == |s|
    ensures forall i :: 0 <= i < |s| ==> r[i] == LowerChar(s[i])
  {
    if s == [] then [] else [LowerChar(s[0])] + Lower(s[1..])
  }

  /** A string with no upper-case ASCII letter. */
  predicate IsLower(s: string) {
    forall i :: 0 <= i < |s| ==> !IsUpper(s[i])
  }

  lemma LowerIsLower(s: string)
    ensures IsLower(Lower(s))
    ensures Lower(Lower(s)) == Lower(s)
  {
  }

  lemma LowerOfLower(s: string)
    requires IsLower(s)
    ensures Lower(s) == s
  {
  }

  // ---------------------------------------------------------------------
  // Substrings

  /** `hay.includes(needle)`: some window of `hay` equals `needle`. */
  predicate Contains(hay: string, needle: string) {
    exists i | 0 <= i <= |hay| :: OccursAt(hay, needle, i)
  }

  /** `needle` starts at position `i` of `hay`. */
  predicate OccursAt(hay: string, needle: string, i: int) {
    0 <= i && i + |needle| <= |hay| && hay[i..i + |needle|] == needle
  }

  lemma ContainsEmpty(hay: string)
    ensures Contains(hay, "")
  {
    assert OccursAt(hay, "", 0);
  }

  // ---------------------------------------------------------------------
  // join

  /** `xs.join(sep)`. */
  function Join(xs: seq<string>, sep: string): string {
    if |xs| == 0 then ""
    else if |xs| == 1 then xs[0]
    else xs[0] + sep + Join(xs[1..], sep)
  }

  /** A joined sequence is empty exactly when there is nothing to show:
      no elements, or a single empty one. */
  lemma {:induction false} JoinEmptyIff(xs: seq<string>, sep: string)
    requires sep != ""
    ensures Join(xs, sep) == "" <==> (|xs| == 0 || (|xs| == 1 && xs[0] == ""))
  {
    if |xs| > 1 {
      assert |Join(xs, sep)| >= |sep|;
    }
  }

  /** Joining a sequence whose first element is non-empty gives a
      non-empty string, whatever the other elements and the separator. */
  lemma {:induction false} JoinNonEmpty(xs: seq<string>, sep: string)
    requires |xs| > 0 && xs[0] != ""
    ensures Join(xs, sep) != ""
  {
    assert |Join(xs, sep)| >= |xs[0]|;
  }

  // ---------------------------------------------------------------------
  // split on one character

  /** Number of occurrences of `c` in `s`. */
  function Count(s: string, c: char): nat {
    if s == [] then 0 else (if s[0] == c then 1 else 0) + Count(s[1..], c)
  }

  /** `s.split(c)` for a one-character separator: the pieces between
      separators, in order, empty pieces kept. */
  function Split(s: string, c: char): (r: seq<string>)
    ensures |r| == Count(s, c) + 1
  {
    if s == [] then [""]
    else
      var rest := Split(s[1..], c);
      if s[0] == c then [""] + rest
      else [[s[0]] + rest[0]] + rest[1..]
  }

  /** No piece of a split contains the separator. */
  lemma {:induction false} SplitPiecesFree(s: string, c: char)
    ensures forall k :: 0 <= k < |Split(s, c)| ==> c !in Split(s, c)[k]
  {
    if s != [] {
      SplitPiecesFree(s[1..], c);
    }
  }

  /** Joining the pieces with the separator gives back the input. */
  lemma {:induction false} JoinSplit(s: string, c: char)
    ensures Join(Split(s, c), [c]) == s
  {
    if s != [] {
      var rest := Split(s[1..], c);
      JoinSplit(s[1..], c);
      if s[0] == c {
        assert ([""] + rest)[1..] == rest;
      } else {
        var r := [[s[0]] + rest[0]] + rest[1..];
        assert r[1..] == rest[1..];
        if |rest| > 1 {
          assert Join(rest, [c]) == rest[0] + [c] + Join(rest[1..], [c]);
        }
      }
    }
  }

  /** Splitting a join recovers the elements when none contains the
      separator. */
  lemma {:induction false} SplitJoin(xs: seq<string>, c: char)
    requires |xs| > 0
    requires forall k :: 0 <= k < |xs| ==> c !in xs[k]
    ensures Split(Join(xs, [c]), c) == xs
  {
    if |xs| == 1 {
      SplitNoSeparator(xs[0], c);
    } else {
      SplitJoin(xs[1..], c);
      SplitAround(xs[0], Join(xs[1..], [c]), c);
      assert [xs[0]] + xs[1..] == xs;
    }
  }

  lemma {:induction false} SplitNoSeparator(s: string, c: char)
    requires c !in s
    ensures Split(s, c) == [s]
  {
    if s != [] {
      SplitNoSeparator(s[1..], c);
      assert [s[0]] + s[1..] == s;
    }
  }

  lemma {:induction false} SplitAround(a: string, b: string, c: char)
    requires c !in a
    ensures Split(a + [c] + b, c) == [a] + Split(b, c)
  {
    if a == [] {
      assert a + [c] + b == [c] + b;
      assert ([c] + b)[1..] == b;
    } else {
      assert (a + [c] + b)[1..] == a[1..] + [c] + b;
      SplitAround(a[1..], b, c);
      assert [a[0]] + a[1..] == a;
    }
  }

  // ---------------------------------------------------------------------
  // trim

  /** ECMAScript WhiteSpace and LineTerminator code points, the set that
      `String.prototype.trim` removes. */
  predicate IsWhite(c: char) {
    var n := c as int;
    n == 0x09 || n == 0x0A || n == 0x0B || n == 0x0C || n == 0x0D || n == 0x20
    || n == 0xA0 || n == 0x1680 || (0x2000 <= n <= 0x200A) || n == 0x2028
    || n == 0x2029 || n == 0x202F || n == 0x205F || n == 0x3000 || n == 0xFEFF
  }

  /** `s.trimStart()`: the suffix left after dropping leading white space. */
  function TrimStart(s: string): (r: string)
    ensures |r| <= |s| && r == s[|s| - |r|..]
    ensures forall i :: 0 <= i < |s| - |r| ==> IsWhite(s[i])
    ensures r == [] || !IsWhite(r[0])
  {
    if s != [] && IsWhite(s[0]) then TrimStart(s[1..]) else s
  }

  /** `s.trimEnd()`: the prefix left after dropping trailing white space. */
  function TrimEnd(s: string): (r: string)
    ensures |r| <= |s| && r == s[..|r|]
    ensures forall i :: |r| <= i < |s| ==> IsWhite(s[i])
    ensures r == [] || !IsWhite(r[|r| - 1])
  {
    if s != [] && IsWhite(s[|s| - 1]) then TrimEnd(s[..|s| - 1]) else s
  }

  /** Neither end is white space. */
  predicate IsTrimmed(s: string) {
    s == [] || (!IsWhite(s[0]) && !IsWhite(s[|s| - 1]))
  }

  /** `s.trim()`. */
  function Trim(s: string): string {
    TrimEnd(TrimStart(s))
  }

  /** `s[i..j]` is what is left of `s` once the white space before `i`
      and from `j` on is dropped. */
  predicate WhiteOutside(s: string, i: int, j: int) {
    && 0 <= i <= j <= |s|
    && (forall k :: 0 <= k < i ==> IsWhite(s[k]))
    && (forall k :: j <= k < |s| ==> IsWhite(s[k]))
  }

  /** Trimming leaves a trimmed infix of the input; what it drops on either
      side is all white space. */
  lemma TrimSpec(s: string)
    ensures IsTrimmed(Trim(s))
    ensures exists i, j :: WhiteOutside(s, i, j) && Trim(s) == s[i..j]
  {
    TrimIsTrimmed(s);
    var i, j := TrimWindow(s);
  }

  lemma TrimIsTrimmed(s: string)
    ensures IsTrimmed(Trim(s))
  {
    var t := TrimStart(s);
    var r := TrimEnd(t);
    if r != [] {
      assert r[0] == t[0];
    }
  }

  lemma TrimWindow(s: string) returns (i: int, j: int)
    ensures WhiteOutside(s, i, j) && Trim(s) == s[i..j]
  {
    var t := TrimStart(s);
    i := |s| - |t|;
    j := i + |TrimEnd(t)|;
    WindowCompose(s, t, TrimEnd(t), i);
  }

  /** A prefix `r` of the suffix `t == s[i..]` is the infix `s[i..i + |r|]`,
      and what lies outside it is what was dropped on either side. */
  lemma WindowCompose(s: string, t: string, r: string, i: int)
    requires 0 <= i <= |s| && t == s[i..]
    requires |r| <= |t| && r == t[..|r|]
    requires forall k :: 0 <= k < i ==> IsWhite(s[k])
    requires forall k :: |r| <= k < |t| ==> IsWhite(t[k])
    ensures WhiteOutside(s, i, i + |r|) && r == s[i..i + |r|]
  {
    forall k | i + |r| <= k < |s| ensures IsWhite(s[k]) {
      assert s[k] == t[k - i];
    }
  }

  /** Trimming a trimmed string changes nothing, so trimming is idempotent. */
  lemma TrimOfTrimmed(s: string)
    requires IsTrimmed(s)
    ensures Trim(s) == s
  {
    assert TrimStart(s) == s;
  }

  lemma LowerKeepsTrimmed(s: string)
    requires IsTrimmed(s)
    ensures IsTrimmed(Lower(s))
  {
  }

  // ---------------------------------------------------------------------
  // replace / replaceAll

  /** `s.replace(pat, rep)` with a string pattern: only the leftmost
      occurrence is replaced; no occurrence leaves `s` as it is. */
  function ReplaceFirst(s: string, pat: string, rep: string): string
    decreases |s|
  {
    if |pat| <= |s| && s[..|pat|] == pat then rep + s[|pat|..]
    else if s == [] then []
    else [s[0]] + ReplaceFirst(s[1..], pat, rep)
  }

  lemma {:induction false} ReplaceFirstAbsent(s: string, pat: string, rep: string)
    requires !Contains(s, pat)
    ensures ReplaceFirst(s, pat, rep) == s
  {
    if s != [] {
      if |pat| <= |s| {
        assert s[0..|pat|] == s[..|pat|];
      }
      assert !OccursAt(s, pat, 0);
      ContainsTail(s, pat);
      ReplaceFirstAbsent(s[1..], pat, rep);
    } else {
      assert !OccursAt(s, pat, 0);
    }
  }

  lemma ContainsTail(s: string, pat: string)
    requires s != [] && !Contains(s, pat)
    ensures !Contains(s[1..], pat)
  {
    forall i | 0 <= i <= |s[1..]| ensures !OccursAt(s[1..], pat, i) {
      if OccursAt(s[1..], pat, i) {
        assert s[1..][i..i + |pat|] == s[i + 1..i + 1 + |pat|];
        assert OccursAt(s, pat, i + 1);
      }
    }
  }

  /** When the pattern's first character occurs nowhere else in it, the
      first occurrence in `a + pat + b` is the one after `a` as long as `a`
      holds none itself; that one is replaced and nothing else changes. */
  lemma {:induction false} ReplaceFirstAt(a: string, pat: string, b: string, rep: string)
    requires |pat| > 0
    requires forall m :: 0 < m < |pat| ==> pat[m] != pat[0]
    requires !Contains(a, pat)
    ensures ReplaceFirst(a + pat + b, pat, rep) == a + rep + b
  {
    var s := a + pat + b;
    if a == [] {
      assert s == pat + b;
      assert s[..|pat|] == pat;
    } else {
      NotAtStart(a, pat, b);
      assert s[1..] == a[1..] + pat + b;
      ContainsTail(a, pat);
      ReplaceFirstAt(a[1..], pat, b, rep);
      assert ReplaceFirst(s, pat, rep) == [a[0]] + (a[1..] + rep + b);
      assert [a[0]] + a[1..] == a;
    }
  }

  /** With `a` free of the pattern, `a + pat + b` does not start with it. */
  lemma NotAtStart(a: string, pat: string, b: string)
    requires a != [] && |pat| > 0
    requires forall m :: 0 < m < |pat| ==> pat[m] != pat[0]
    requires !Contains(a, pat)
    ensures !(|pat| <= |a + pat + b| && (a + pat + b)[..|pat|] == pat)
  {
    var s := a + pat + b;
    if |a| >= |pat| {
      assert s[..|pat|] == a[0..|pat|];
      assert !OccursAt(a, pat, 0);
    } else {
      assert s[..|pat|][|a|] == pat[0];
    }
  }

  /** `s.replaceAll(c, "")` for a one-character pattern. */
  function RemoveAll(s: string, c: char): (r: string)
    ensures c !in r
    ensures |r| <= |s|
  {
    if s == [] then []
    else (if s[0] == c then [] else [s[0]]) + RemoveAll(s[1..], c)
  }

  lemma {:induction false} RemoveAllAbsent(s: string, c: char)
    requires c !in s
    ensures RemoveAll(s, c) == s
  {
    if s != [] {
      RemoveAllAbsent(s[1..], c);
      assert [s[0]] + s[1..] == s;
    }
  }

  lemma {:induction false} RemoveAllAppend(a: string, b: string, c: char)
    ensures RemoveAll(a + b, c) == RemoveAll(a, c) + RemoveAll(b, c)
  {
    if a == [] {
      assert a + b == b;
    } else {
      var h: string := if a[0] == c then [] else [a[0]];
      assert (a + b)[0] == a[0];
      assert (a + b)[1..] == a[1..] + b;
      assert RemoveAll(a + b, c) == h + RemoveAll(a[1..] + b, c);
      RemoveAllAppend(a[1..], b, c);
      assert RemoveAll(a, c) == h + RemoveAll(a[1..], c);
    }
  }

  // ---------------------------------------------------------------------
  // The default sort order of JavaScript strings

  /** `a < b` on strings: lexicographic on characters, a proper prefix
      first. */
  predicate Less(a: string, b: string) {
    if a == [] then b != []
    else if b == [] then false
    else if a[0] != b[0] then a[0] < b[0]
    else Less(a[1..], b[1..])
  }

  lemma {:induction false} LessIrreflexive(a: string)
    ensures !Less(a, a)
  {
    if a != [] {
      LessIrreflexive(a[1..]);
    }
  }

  lemma {:induction false} LessTransitive(a: string, b: string, c: string)
    requires Less(a, b) && Less(b, c)
    ensures Less(a, c)
  {
    if a != [] && b != [] && c != [] && a[0] == b[0] == c[0] {
      LessTransitive(a[1..], b[1..], c[1..]);
    }
  }

  lemma {:induction false} LessTotal(a: string, b: string)
    requires a != b
    ensures Less(a, b) || Less(b, a)
  {
    if a != [] && b != [] && a[0] == b[0] {
      assert a == [a[0]] + a[1..] && b == [b[0]] + b[1..];
      LessTotal(a[1..], b[1..]);
    }
  }

  lemma LessAsymmetric(a: string, b: string)
    requires Less(a, b)
    ensures !Less(b, a)
  {
    if Less(b, a) {
      LessTransitive(a, b, a);
      LessIrreflexive(a);
    }
  }
}
