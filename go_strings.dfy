/** The functions of Go's `strings` package that the type translator calls, on strings
    seen as sequences of characters. Separators and search strings are matched leftmost
    first and without overlap, as Go does; lower-casing is ASCII only. */
module GoStrings {

  /** `t` occurs in `s` starting at index `i`. */
  predicate OccursAt(s: string, t: string, i: nat)
  {
    i + |t| <= |s| && s[i..i + |t|] == t
  }

  /** strings.HasPrefix */
  predicate HasPrefix(s: string, p: string)
  {
    |p| <= |s| && s[..|p|] == p
  }

  /** strings.HasSuffix */
  predicate HasSuffix(s: string, p: string)
  {
    |p| <= |s| && s[|s| - |p|..] == p
  }

  /** Every character of `u` is `c`. */
  predicate AllChar(u: string, c: char)
  {
    forall k :: 0 <= k < |u| ==> u[k] == c
  }

  /** strings.Contains: a scan of `s` for a position where `t` starts. */
  function Contains(s: string, t: string): (r: bool)
    ensures r <==> exists i: nat :: OccursAt(s, t, i)
    decreases |s|
  {
    if HasPrefix(s, t) then
      assert OccursAt(s, t, 0);
      true
    else if s == [] then
      assert forall i: nat :: !OccursAt(s, t, i);
      false
    else
      var r := Contains(s[1..], t);
      assert forall i: nat :: OccursAt(s[1..], t, i) <==> OccursAt(s, t, i + 1);
      assert forall i: nat :: OccursAt(s, t, i) ==> i > 0 && OccursAt(s[1..], t, i - 1);
      r
  }

  /** strings.TrimPrefix */
  function TrimPrefix(s: string, p: string): (r: string)
    ensures HasPrefix(s, p) ==> p + r == s
    ensures !HasPrefix(s, p) ==> r == s
  {
    if HasPrefix(s, p) then s[|p|..] else s
  }

  /** strings.TrimSuffix */
  function TrimSuffix(s: string, p: string): (r: string)
    ensures HasSuffix(s, p) ==> r + p == s
    ensures !HasSuffix(s, p) ==> r == s
  {
    if HasSuffix(s, p) then s[..|s| - |p|] else s
  }

  /** strings.TrimLeft with a one-character cutset. */
  function TrimLeft(s: string, c: char): (r: string)
    ensures HasSuffix(s, r) && AllChar(s[..|s| - |r|], c)
    ensures r == [] || r[0] != c
    decreases |s|
  {
    if s != [] && s[0] == c then
      var r := TrimLeft(s[1..], c);
      assert s[|s| - |r|..] == s[1..][|s| - 1 - |r|..];
      assert forall k :: 1 <= k < |s| - |r| ==> s[k] == s[1..][..|s| - 1 - |r|][k - 1];
      r
    else
      s
  }

  /** strings.TrimRight with a one-character cutset. */
  function TrimRight(s: string, c: char): (r: string)
    ensures HasPrefix(s, r) && AllChar(s[|r|..], c)
    ensures r == [] || r[|r| - 1] != c
    decreases |s|
  {
    if s != [] && s[|s| - 1] == c then
      var r := TrimRight(s[..|s| - 1], c);
      assert s[..|r|] == s[..|s| - 1][..|r|];
      assert forall k :: |r| <= k < |s| - 1 ==> s[k] == s[..|s| - 1][|r|..][k - |r|];
      r
    else
      s
  }

  /** strings.Trim with a one-character cutset: `s` is the result framed by runs of `c`. */
  function Trim(s: string, c: char): (r: string)
    ensures exists i: nat :: OccursAt(s, r, i) && AllChar(s[..i], c) && AllChar(s[i + |r|..], c)
    ensures r == [] || (r[0] != c && r[|r| - 1] != c)
    ensures forall ch :: ch in r ==> ch in s
  {
    var left := TrimLeft(s, c);
    var r := TrimRight(left, c);
    TrimFrame(s, c, left, r);
    r
  }

  /** The frame of `Trim`: what `TrimLeft` cuts lies before what `TrimRight` keeps. */
  lemma TrimFrame(s: string, c: char, left: string, r: string)
    requires HasSuffix(s, left) && AllChar(s[..|s| - |left|], c)
    requires HasPrefix(left, r) && AllChar(left[|r|..], c)
    ensures OccursAt(s, r, |s| - |left|)
    ensures AllChar(s[|s| - |left| + |r|..], c)
    ensures forall ch :: ch in r ==> ch in s
  {
    var i := |s| - |left|;
    assert s[i..] == left;
    assert s[i..i + |r|] == left[..|r|];
    assert s[i + |r|..] == left[|r|..];
    forall ch | ch in r ensures ch in s {
      var k :| 0 <= k < |r| && r[k] == ch;
      assert s[i + k] == ch;
    }
  }

  /** ASCII lower-casing of one character. */
  function LowerChar(ch: char): char
  {
    if 'A' <= ch <= 'Z' then (ch as int - 'A' as int + 'a' as int) as char else ch
  }

  /** strings.ToLower, restricted to ASCII letters. */
  function ToLower(s: string): (r: string)
    ensures |r| == |s|
    ensures forall i :: 0 <= i < |s| ==> r[i] == LowerChar(s[i])
    ensures forall i :: 0 <= i < |r| ==> !('A' <= r[i] <= 'Z')
  {
    if s == [] then [] else [LowerChar(s[0])] + ToLower(s[1..])
  }

  /** strings.Split: the pieces of `s` between the leftmost non-overlapping occurrences of `sep`. */
  function Split(s: string, sep: string): (r: seq<string>)
    requires sep != []
    ensures |r| >= 1
    decreases |s|
  {
    if HasPrefix(s, sep) then
      [""] + Split(s[|sep|..], sep)
    else if s == [] then
      [""]
    else
      var rest := Split(s[1..], sep);
      [[s[0]] + rest[0]] + rest[1..]
  }

  /** strings.Join: the pieces with `sep` between neighbours. */
  function Join(parts: seq<string>, sep: string): string
    requires |parts| >= 1
  {
    if |parts| == 1 then parts[0] else parts[0] + sep + Join(parts[1..], sep)
  }

  /** strings.ReplaceAll: every leftmost non-overlapping occurrence of `pat` becomes `rep`. */
  function ReplaceAll(s: string, pat: string, rep: string): string
    requires pat != []
    decreases |s|
  {
    if HasPrefix(s, pat) then rep + ReplaceAll(s[|pat|..], pat, rep)
    else if s == [] then []
    else [s[0]] + ReplaceAll(s[1..], pat, rep)
  }

  // ---------------------------------------------------------------- lemmas

  /** Joining the pieces of a split with the same separator gives the string back. */
  lemma {:induction false} SplitJoin(s: string, sep: string)
    requires sep != []
    ensures Join(Split(s, sep), sep) == s
    decreases |s|
  {
    if HasPrefix(s, sep) {
      var rest := s[|sep|..];
      SplitJoin(rest, sep);
      JoinEmptyFirst(Split(rest, sep), sep);
      assert s == sep + rest;
    } else if s == [] {
    } else {
      SplitJoin(s[1..], sep);
      JoinConsChar(s[0], Split(s[1..], sep), sep);
      assert s == [s[0]] + s[1..];
    }
  }

  /** No piece of a split holds the separator, and the first piece is a prefix of the input. */
  lemma {:induction false} SplitPieces(s: string, sep: string)
    requires sep != []
    ensures HasPrefix(s, Split(s, sep)[0])
    ensures forall k :: 0 <= k < |Split(s, sep)| ==> !Contains(Split(s, sep)[k], sep)
    decreases |s|
  {
    if HasPrefix(s, sep) {
      SplitPieces(s[|sep|..], sep);
    } else if s != [] {
      var rest := Split(s[1..], sep);
      SplitPieces(s[1..], sep);
      var piece := [s[0]] + rest[0];
      assert piece == s[..|piece|];
      assert piece[1..] == rest[0];
      assert Split(s, sep) == [piece] + rest[1..];
    }
  }

  /** An empty first piece leaves only the separator in front. */
  lemma JoinEmptyFirst(parts: seq<string>, sep: string)
    requires |parts| >= 1
    ensures Join([""] + parts, sep) == sep + Join(parts, sep)
  {
    assert ([""] + parts)[1..] == parts;
  }

  /** Prepending a character to the first piece prepends it to the join. */
  lemma JoinConsChar(c: char, parts: seq<string>, sep: string)
    requires |parts| >= 1
    ensures Join([[c] + parts[0]] + parts[1..], sep) == [c] + Join(parts, sep)
  {
    var ps := [[c] + parts[0]] + parts[1..];
    assert ps[1..] == parts[1..];
  }

  /** A string without the separator splits into itself alone. */
  lemma {:induction false} SplitWithoutSep(s: string, sep: string)
    requires sep != [] && !Contains(s, sep)
    ensures Split(s, sep) == [s]
    decreases |s|
  {
    assert !OccursAt(s, sep, 0);
    if s != [] {
      SplitWithoutSep(s[1..], sep);
      assert [s[0]] + s[1..] == s;
    }
  }

  /** A string holding the separator splits into at least two pieces. */
  lemma {:induction false} SplitWithSep(s: string, sep: string)
    requires sep != [] && Contains(s, sep)
    ensures |Split(s, sep)| >= 2
    decreases |s|
  {
    if !HasPrefix(s, sep) {
      var i: nat :| OccursAt(s, sep, i);
      assert i > 0 && OccursAt(s[1..], sep, i - 1);
      SplitWithSep(s[1..], sep);
    }
  }

  /** For a one-character separator, "contains the separator" is character membership. */
  lemma ContainsChar(s: string, c: char)
    ensures Contains(s, [c]) <==> c in s
  {
    if c in s {
      var k :| 0 <= k < |s| && s[k] == c;
      assert OccursAt(s, [c], k);
    }
    if Contains(s, [c]) {
      var k: nat :| OccursAt(s, [c], k);
      assert s[k] == c;
    }
  }

  /** Splitting a piece free of `c`, then `c`, then the rest, cuts exactly after that piece. */
  lemma {:induction false} SplitAtFirst(p: string, c: char, rest: string)
    requires c !in p
    ensures Split(p + [c] + rest, [c]) == [p] + Split(rest, [c])
    decreases |p|
  {
    var s := p + [c] + rest;
    if p == [] {
      assert s == [c] + rest;
      assert HasPrefix(s, [c]);
      assert s[1..] == rest;
    } else {
      assert s[0] == p[0] != c;
      assert s[1..] == p[1..] + [c] + rest;
      SplitAtFirst(p[1..], c, rest);
      assert [s[0]] + p[1..] == p;
    }
  }

  /** For a one-character separator, splitting undoes joining pieces that do not hold it. */
  lemma {:induction false} JoinSplit(parts: seq<string>, c: char)
    requires |parts| >= 1
    requires forall k :: 0 <= k < |parts| ==> c !in parts[k]
    ensures Split(Join(parts, [c]), [c]) == parts
    decreases |parts|
  {
    if |parts| == 1 {
      ContainsChar(parts[0], c);
      SplitWithoutSep(parts[0], [c]);
    } else {
      JoinSplit(parts[1..], c);
      SplitAtFirst(parts[0], c, Join(parts[1..], [c]));
    }
  }

  /** Replacing every occurrence of `pat` by `rep` is splitting on `pat` and joining with `rep`. */
  lemma {:induction false} ReplaceAllIsSplitJoin(s: string, pat: string, rep: string)
    requires pat != []
    ensures ReplaceAll(s, pat, rep) == Join(Split(s, pat), rep)
    decreases |s|
  {
    if HasPrefix(s, pat) {
      ReplaceAllIsSplitJoin(s[|pat|..], pat, rep);
    } else if s == [] {
    } else {
      ReplaceAllIsSplitJoin(s[1..], pat, rep);
      JoinConsChar(s[0], Split(s[1..], pat), rep);
    }
  }

  /** Replacing the whole string. */
  lemma ReplaceAllWhole(s: string, rep: string)
    requires s != []
    ensures ReplaceAll(s, s, rep) == rep
  {
    assert HasPrefix(s, s);
    assert s[|s|..] == [];
  }

  /** A leading character that cannot start the pattern is kept as it is. */
  lemma ReplaceAllCons(c: char, s: string, pat: string, rep: string)
    requires pat != [] && pat[0] != c
    ensures ReplaceAll([c] + s, pat, rep) == [c] + ReplaceAll(s, pat, rep)
  {
    assert ([c] + s)[1..] == s;
  }

  /** Replacing a string that does not occur changes nothing. */
  lemma ReplaceAllAbsent(s: string, pat: string, rep: string)
    requires pat != [] && !Contains(s, pat)
    ensures ReplaceAll(s, pat, rep) == s
  {
    ReplaceAllIsSplitJoin(s, pat, rep);
    SplitWithoutSep(s, pat);
  }

  /** An occurrence in a suffix is an occurrence in the whole string. */
  lemma ContainsAppendLeft(a: string, b: string, t: string)
    requires Contains(b, t)
    ensures Contains(a + b, t)
  {
    var i: nat :| OccursAt(b, t, i);
    assert (a + b)[|a| + i..|a| + i + |t|] == b[i..i + |t|];
    assert OccursAt(a + b, t, |a| + i);
  }

  /** An occurrence in a prefix is an occurrence in the whole string. */
  lemma ContainsAppendRight(a: string, b: string, t: string)
    requires Contains(a, t)
    ensures Contains(a + b, t)
  {
    var i: nat :| OccursAt(a, t, i);
    assert (a + b)[i..i + |t|] == a[i..i + |t|];
    assert OccursAt(a + b, t, i);
  }

  /** A leading character that `t` does not start with cannot begin an occurrence of `t`. */
  lemma ContainsCons(c: char, u: string, t: string)
    requires t != [] && t[0] != c
    ensures Contains([c] + u, t) <==> Contains(u, t)
  {
    var s := [c] + u;
    assert s[1..] == u;
    assert !HasPrefix(s, t);
  }

  /** Appending a piece to a join appends the separator and that piece. */
  lemma {:induction false} JoinAppend(parts: seq<string>, last: string, sep: string)
    requires |parts| >= 1
    ensures Join(parts + [last], sep) == Join(parts, sep) + sep + last
    decreases |parts|
  {
    if |parts| > 1 {
      assert (parts + [last])[1..] == parts[1..] + [last];
      JoinAppend(parts[1..], last, sep);
    }
  }

  /** A string lacking one of the characters of `t` does not contain `t`. */
  lemma MissingCharNotContained(s: string, t: string, c: char)
    requires c in t && c !in s
    ensures !Contains(s, t)
  {
    var k :| 0 <= k < |t| && t[k] == c;
    forall i: nat ensures !OccursAt(s, t, i) {
      if i + |t| <= |s| {
        assert s[i..i + |t|][k] == s[i + k] != c;
      }
    }
  }

  /** Around a character that `t` lacks, `t` occurs exactly where it occurs on one side. */
  lemma ContainsAround(s: string, p: string, c: char, q: string, t: string)
    requires c !in t && s == p + [c] + q
    ensures Contains(s, t) <==> Contains(p, t) || Contains(q, t)
  {
    if Contains(p, t) {
      assert s == p + ([c] + q);
      ContainsAppendRight(p, [c] + q, t);
    }
    if Contains(q, t) {
      ContainsAppendLeft(p + [c], q, t);
    }
    if Contains(s, t) {
      var i: nat :| OccursAt(s, t, i);
      OccurrenceBesideChar(s, p, c, q, t, i);
    }
  }

  /** An occurrence of `t` in `p + [c] + q` lies wholly in `p` or wholly in `q`. */
  lemma OccurrenceBesideChar(s: string, p: string, c: char, q: string, t: string, i: nat)
    requires c !in t && s == p + [c] + q && OccursAt(s, t, i)
    ensures Contains(p, t) || Contains(q, t)
  {
    forall j: nat | j <= |p| < j + |t| ensures !OccursAt(s, t, j) {
      if j + |t| <= |s| {
        assert s[j..j + |t|][|p| - j] == c;
      }
    }
    if i + |t| <= |p| {
      assert s[i..i + |t|] == p[i..i + |t|];
      assert OccursAt(p, t, i);
    } else {
      assert s[i..i + |t|] == q[i - |p| - 1..i - |p| - 1 + |t|];
      assert OccursAt(q, t, i - |p| - 1);
    }
  }

  /** Lower-casing character by character. */
  lemma ToLowerIs(s: string, t: string)
    requires |s| == |t| && forall i :: 0 <= i < |s| ==> LowerChar(s[i]) == t[i]
    ensures ToLower(s) == t
  {
  }

  /** Lower-casing distributes over concatenation. */
  lemma ToLowerAppend(a: string, b: string)
    ensures ToLower(a + b) == ToLower(a) + ToLower(b)
  {
    ToLowerIs(a + b, ToLower(a) + ToLower(b));
  }

  /** strings.Trim on a core framed by exactly one `c` on each side. */
  lemma TrimFramed(c: char, core: string)
    requires core != [] && core[0] != c && core[|core| - 1] != c
    ensures Trim([c] + core + [c], c) == core
  {
    var s := [c] + core + [c];
    assert s[1..] == core + [c];
    assert TrimLeft(s[1..], c) == core + [c];
    assert TrimLeft(s, c) == core + [c];
    assert (core + [c])[..|core|] == core;
    assert TrimRight(core, c) == core;
  }

}
