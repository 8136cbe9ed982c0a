/**
 * The string functions of Go's `strings` package that the core relies on:
 * Split, Join, ToLower (ASCII only) and Trim with the cutset " ".
 */
module Text {

  /** True when `sep` occurs in `s` at index `i`. */
  predicate OccursAt(s: string, sep: string, i: nat)
  {
    i + |sep| <= |s| && s[i..i + |sep|] == sep
  }

  /** True when `sep` occurs somewhere in `s`. */
  predicate Contains(s: string, sep: string)
  {
    exists i: nat :: i <= |s| && OccursAt(s, sep, i)
  }

  /** The first index at or after `k` where `sep` occurs in `s`, or -1 (Go's strings.Index). */
  function IndexFrom(s: string, sep: string, k: nat): (r: int)
    ensures r == -1 || (k <= r && OccursAt(s, sep, r))
    ensures r == -1 ==> forall j: nat :: k <= j ==> !OccursAt(s, sep, j)
    ensures r >= 0 ==> forall j: nat :: k <= j < r ==> !OccursAt(s, sep, j)
    decreases |s| - k
  {
    if k + |sep| > |s| then -1
    else if s[k..k + |sep|] == sep then k
    else IndexFrom(s, sep, k + 1)
  }

  /**
   * Go's strings.Split for a non-empty separator: the pieces between the
   * successive first occurrences of `sep`; never empty, `[""]` for `""`.
   */
  function Split(s: string, sep: string): (parts: seq<string>)
    requires |sep| > 0
    ensures |parts| >= 1
    decreases |s|
  {
    var i := IndexFrom(s, sep, 0);
    if i < 0 then [s] else [s[..i]] + Split(s[i + |sep|..], sep)
  }

  /** Go's strings.Join. */
  function Join(parts: seq<string>, sep: string): string
  {
    if |parts| == 0 then ""
    else if |parts| == 1 then parts[0]
    else parts[0] + sep + Join(parts[1..], sep)
  }

  /** ASCII lower-casing of one character. */
  function LowerChar(c: char): char
  {
    if 'A' <= c <= 'Z' then (c as int + 32) as char else c
  }

  /** strings.ToLower, restricted to ASCII letters. */
  function Lower(s: string): string
  {
    seq(|s|, i requires 0 <= i < |s| => LowerChar(s[i]))
  }

  /** strings.TrimLeft(s, " "). */
  function TrimLeft(s: string): string
    decreases |s|
  {
    if |s| > 0 && s[0] == ' ' then TrimLeft(s[1..]) else s
  }

  /** strings.TrimRight(s, " "). */
  function TrimRight(s: string): string
    decreases |s|
  {
    if |s| > 0 && s[|s| - 1] == ' ' then TrimRight(s[..|s| - 1]) else s
  }

  /** strings.Trim(s, " "): leading, then trailing spaces removed. */
  function Trim(s: string): string
  {
    TrimRight(TrimLeft(s))
  }

  /** No space at either end. */
  predicate NoEdgeSpaces(s: string)
  {
    |s| == 0 || (s[0] != ' ' && s[|s| - 1] != ' ')
  }

  /** Number of occurrences of the character `c` in `s`. */
  function CountChar(s: string, c: char): nat
  {
    if s == [] then 0 else (if s[0] == c then 1 else 0) + CountChar(s[1..], c)
  }

  /** strconv.Itoa. */
  function IntToString(n: int): string
  {
    if n < 0 then "-" + NatToString(-n) else NatToString(n)
  }

  function NatToString(n: nat): string
  {
    var digit := ['0' + (n % 10) as char];
    if n < 10 then digit else NatToString(n / 10) + digit
  }

  // ---------------------------------------------------------------------
  // Lemmas

  /** The first occurrence is unique: whatever satisfies its description is it. */
  lemma IndexIs(s: string, sep: string, r: nat)
    requires OccursAt(s, sep, r)
    requires forall j: nat :: j < r ==> !OccursAt(s, sep, j)
    ensures IndexFrom(s, sep, 0) == r
  {
  }

  /** `s` without any occurrence of `sep` splits into itself. */
  lemma SplitWithout(s: string, sep: string)
    requires |sep| > 0 && !Contains(s, sep)
    ensures Split(s, sep) == [s]
  {
  }

  /** Joining the pieces of a split gives the string back. */
  lemma {:induction false} JoinSplit(s: string, sep: string)
    requires |sep| > 0
    ensures Join(Split(s, sep), sep) == s
    decreases |s|
  {
    var i := IndexFrom(s, sep, 0);
    if i >= 0 {
      var rest := s[i + |sep|..];
      JoinSplit(rest, sep);
      SplitAt(s, sep, i);
      JoinCons(s[..i], Split(rest, sep), sep);
      Reassemble(s, sep, i);
    }
  }

  /** Unfolding of Split at its first occurrence. */
  lemma SplitAt(s: string, sep: string, i: int)
    requires |sep| > 0 && i == IndexFrom(s, sep, 0) && i >= 0
    ensures Split(s, sep) == [s[..i]] + Split(s[i + |sep|..], sep)
  {
  }

  lemma JoinCons(h: string, t: seq<string>, sep: string)
    requires |t| >= 1
    ensures Join([h] + t, sep) == h + sep + Join(t, sep)
  {
    assert ([h] + t)[1..] == t;
  }

  lemma Reassemble(s: string, sep: string, i: nat)
    requires OccursAt(s, sep, i)
    ensures s[..i] + sep + s[i + |sep|..] == s
  {
    assert s == s[..i] + s[i..i + |sep|] + s[i + |sep|..];
  }

  /** A one-character separator cannot straddle a boundary: splitting distributes over it. */
  lemma {:induction false} SplitAround(a: string, sep: string, b: string)
    requires |sep| == 1
    ensures Split(a + sep + b, sep) == Split(a, sep) + Split(b, sep)
    decreases |a|
  {
    var ia := IndexFrom(a, sep, 0);
    if ia < 0 {
      SplitAroundFirst(a, sep, b);
    } else {
      var head, rest := a[..ia], a[ia + 1..];
      SplitAroundInside(a, sep, b, ia);
      SplitAt(a, sep, ia);
      assert a[ia + |sep|..] == rest;
      SplitAround(rest, sep, b);
      var left, right := Split(rest, sep), Split(b, sep);
      assert [head] + (left + right) == ([head] + left) + right;
    }
  }

  /** Without an occurrence in `a`, the first piece of `a + sep + b` is `a`. */
  lemma SplitAroundFirst(a: string, sep: string, b: string)
    requires |sep| == 1 && IndexFrom(a, sep, 0) < 0
    ensures Split(a + sep + b, sep) == [a] + Split(b, sep)
  {
    var s := a + sep + b;
    SameOccurrences(a, sep, b);
    IndexIs(s, sep, |a|);
    SplitAt(s, sep, |a|);
    assert s[..|a|] == a;
    assert s[|a| + 1..] == b;
  }

  /** With a first occurrence at `ia` in `a`, the split of `a + sep + b` proceeds inside `a`. */
  lemma SplitAroundInside(a: string, sep: string, b: string, ia: int)
    requires |sep| == 1 && ia == IndexFrom(a, sep, 0) && ia >= 0
    ensures Split(a + sep + b, sep) == [a[..ia]] + Split(a[ia + 1..] + sep + b, sep)
  {
    var s := a + sep + b;
    FirstIndexInPrefix(a, sep, b, ia);
    SplitAt(s, sep, ia);
    SliceAround(a, sep, b, ia);
  }

  /** The first occurrence in `a` is the first one in `a + sep + b`. */
  lemma FirstIndexInPrefix(a: string, sep: string, b: string, ia: int)
    requires |sep| == 1 && ia == IndexFrom(a, sep, 0) && ia >= 0
    ensures IndexFrom(a + sep + b, sep, 0) == ia
  {
    SameOccurrences(a, sep, b);
    IndexIs(a + sep + b, sep, ia);
  }

  lemma SliceAround(a: string, sep: string, b: string, ia: int)
    requires 0 <= ia < |a|
    ensures (a + sep + b)[..ia] == a[..ia]
    ensures (a + sep + b)[ia + 1..] == a[ia + 1..] + sep + b
  {
    var t := sep + b;
    assert a + sep + b == a + t;
    assert (a + t)[ia + 1..] == a[ia + 1..] + t;
  }

  /** Before the separator, `a + sep + b` has the occurrences of `a`, and then one. */
  lemma SameOccurrences(a: string, sep: string, b: string)
    requires |sep| == 1
    ensures forall j: nat :: j < |a| ==> (OccursAt(a + sep + b, sep, j) <==> OccursAt(a, sep, j))
    ensures OccursAt(a + sep + b, sep, |a|)
  {
    var s := a + sep + b;
    forall j: nat | j < |a|
      ensures OccursAt(s, sep, j) <==> OccursAt(a, sep, j)
    {
      assert s[j..j + 1] == a[j..j + 1];
    }
    assert s[|a|..|a| + 1] == sep;
  }

  /** With two distinct separator characters the split of `k + sep + v` is `[k, v]`. */
  lemma SplitPair(k: string, sep: string, v: string)
    requires |sep| == 2 && sep[0] != sep[1]
    requires !Contains(k, sep) && !Contains(v, sep)
    ensures Split(k + sep + v, sep) == [k, v]
  {
    var s := k + sep + v;
    forall j: nat | j < |k|
      ensures !OccursAt(s, sep, j)
    {
      if j + 2 <= |k| {
        assert s[j..j + 2] == k[j..j + 2];
        assert !OccursAt(k, sep, j);
      } else {
        assert s[j + 1] == sep[0];
      }
    }
    assert s[|k|..|k| + 2] == sep;
    IndexIs(s, sep, |k|);
    SplitAt(s, sep, |k|);
    assert s[..|k|] == k;
    assert s[|k| + 2..] == v;
    SplitWithout(v, sep);
  }

  /** A one-character separator yields one more piece than it has occurrences. */
  lemma {:induction false} SplitCount(s: string, c: char)
    ensures |Split(s, [c])| == CountChar(s, c) + 1
    decreases |s|
  {
    var i := IndexFrom(s, [c], 0);
    if i < 0 {
      NoOccurrenceNoCount(s, c);
    } else {
      var rest := s[i + 1..];
      SplitCount(rest, c);
      SplitAt(s, [c], i);
      forall j | 0 <= j < i
        ensures s[..i][j] != c
      {
        assert !OccursAt(s, [c], j);
        assert s[j..j + 1] == [s[..i][j]];
      }
      NoCharCount(s[..i], c);
      Reassemble(s, [c], i);
      CountConcat(s[..i], [c] + rest, c);
      CountConcat([c], rest, c);
      assert s[..i] + [c] + rest == s[..i] + ([c] + rest);
    }
  }

  lemma {:induction false} CountConcat(a: string, b: string, c: char)
    ensures CountChar(a + b, c) == CountChar(a, c) + CountChar(b, c)
    decreases |a|
  {
    if a != [] {
      assert (a + b)[1..] == a[1..] + b;
      CountConcat(a[1..], b, c);
    } else {
      assert a + b == b;
    }
  }

  lemma {:induction false} NoCharCount(s: string, c: char)
    requires forall j :: 0 <= j < |s| ==> s[j] != c
    ensures CountChar(s, c) == 0
    decreases |s|
  {
    if s != [] {
      NoCharCount(s[1..], c);
    }
  }

  lemma NoOccurrenceNoCount(s: string, c: char)
    requires forall j: nat :: !OccursAt(s, [c], j)
    ensures CountChar(s, c) == 0
  {
    forall j | 0 <= j < |s|
      ensures s[j] != c
    {
      assert !OccursAt(s, [c], j);
      assert s[j..j + 1] == [s[j]];
    }
    NoCharCount(s, c);
  }

  /** A slice of a string without `pat` has no `pat` either. */
  lemma SliceAvoids(s: string, pat: string, a: nat, b: nat)
    requires a <= b <= |s| && !Contains(s, pat)
    ensures !Contains(s[a..b], pat)
  {
    var t := s[a..b];
    forall i: nat | i <= |t|
      ensures !OccursAt(t, pat, i)
    {
      if OccursAt(t, pat, i) {
        var u, w := t[i..i + |pat|], s[a + i..a + i + |pat|];
        assert forall k :: 0 <= k < |u| ==> u[k] == w[k];
        assert w == u;
        assert OccursAt(s, pat, a + i);
      }
    }
  }

  /** Every part of a split of a string without `pat` is without `pat`. */
  lemma {:induction false} SplitPartsAvoid(s: string, sep: string, pat: string)
    requires |sep| > 0 && !Contains(s, pat)
    ensures forall p :: p in Split(s, sep) ==> !Contains(p, pat)
    decreases |s|
  {
    var i := IndexFrom(s, sep, 0);
    if i < 0 {
      assert Split(s, sep) == [s];
    } else {
      SliceAvoids(s, pat, 0, i);
      SliceAvoids(s, pat, i + |sep|, |s|);
      assert s[i + |sep|..] == s[i + |sep|..|s|];
      SplitPartsAvoid(s[i + |sep|..], sep, pat);
      assert Split(s, sep) == [s[..i]] + Split(s[i + |sep|..], sep);
    }
  }

  /** A string free of a character has no occurrence of any separator starting with it. */
  lemma NotContainsFirst(s: string, sep: string)
    requires |sep| > 0 && sep[0] !in s
    ensures !Contains(s, sep)
  {
    forall i: nat | i + |sep| <= |s|
      ensures !OccursAt(s, sep, i)
    {
      assert s[i..i + |sep|][0] == s[i];
    }
  }

  /** Trim leaves a string without edge spaces as it is. */
  lemma TrimUnchanged(s: string)
    requires NoEdgeSpaces(s)
    ensures Trim(s) == s
  {
  }

  /** Trim removes one leading space from a string without edge spaces. */
  lemma TrimLeadingSpace(s: string)
    requires NoEdgeSpaces(s)
    ensures Trim(" " + s) == s
  {
    assert (" " + s)[1..] == s;
    assert TrimLeft(" " + s) == TrimLeft(s) == s;
    TrimUnchanged(s);
  }

  /** If `c` occurs in neither head, the heads before the first `c` coincide. */
  lemma SplitAtChar(a: string, b: string, c: char, x: string, y: string)
    requires c !in a && c !in b
    requires a + [c] + x == b + [c] + y
    ensures a == b && x == y
  {
    FirstCharAt(a, c, x);
    FirstCharAt(b, c, y);
    var s := a + [c] + x;
    assert a == s[..|a|] && b == s[..|b|];
    assert x == s[|a| + 1..] && y == s[|b| + 1..];
  }

  /** The first `c` in `a + [c] + x` is right after `a` when `a` has none. */
  lemma FirstCharAt(a: string, c: char, x: string)
    requires c !in a
    ensures IndexFrom(a + [c] + x, [c], 0) == |a|
  {
    var s := a + [c] + x;
    forall j: nat | j < |a|
      ensures !OccursAt(s, [c], j)
    {
      assert s[j..j + 1] == [a[j]];
    }
    assert s[|a|..|a| + 1] == [c];
    IndexIs(s, [c], |a|);
  }

  /** Lower-casing never introduces a non-letter such as '_' or ':'. */
  lemma LowerKeeps(s: string, c: char)
    requires !('A' <= c <= 'Z') && !('a' <= c <= 'z')
    ensures c in Lower(s) <==> c in s
  {
    if c in Lower(s) {
      var i :| 0 <= i < |s| && Lower(s)[i] == c;
      assert s[i] == c;
    }
    if c in s {
      var i :| 0 <= i < |s| && s[i] == c;
      assert Lower(s)[i] == c;
    }
  }

  /** Splitting at a first piece free of the separator character. */
  lemma SplitFirst(a: string, c: char, b: string)
    requires c !in a
    ensures Split(a + [c] + b, [c]) == [a] + Split(b, [c])
  {
    var s := a + [c] + b;
    FirstCharAt(a, c, b);
    SplitAt(s, [c], |a|);
    assert s[..|a|] == a;
    assert s[|a| + 1..] == b;
  }
}
