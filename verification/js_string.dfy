/**
 * The few JavaScript string primitives the reading-list generator relies on,
 * modelled on `seq<char>` with the edge cases of the language built-ins:
 * `indexOf` finds the empty needle at 0, `substring` and `charAt` clamp or
 * return the empty string past the end, `split` with a one-character
 * separator always yields at least one piece, and `<` on strings is the
 * lexicographic order on characters.
 */
module JsString {

  /** `t` occurs in `s` starting at position `k`. */
  predicate OccursAt(s: string, t: string, k: int) {
    0 <= k && k + |t| <= |s| && s[k..k + |t|] == t
  }

  /** `t` occurs somewhere in `s`. */
  ghost predicate Contains(s: string, t: string) {
    exists k :: OccursAt(s, t, k)
  }

  function IndexOfFrom(s: string, t: string, k: nat): (r: int)
    requires forall j :: 0 <= j < k ==> !OccursAt(s, t, j)
    ensures r == -1 || (k <= r && OccursAt(s, t, r))
    ensures r >= 0 ==> forall j :: 0 <= j < r ==> !OccursAt(s, t, j)
    ensures r == -1 ==> forall j :: !OccursAt(s, t, j)
    decreases |s| - k
  {
    if k + |t| > |s| then -1
    else if s[k..k + |t|] == t then k
    else IndexOfFrom(s, t, k + 1)
  }

  /**
   * `s.indexOf(t)`: the first position where `t` occurs, or -1. The empty
   * needle occurs at 0.
   */
  function IndexOf(s: string, t: string): (r: int)
    ensures -1 <= r <= |s| - |t| || r == -1
    ensures r >= 0 ==> OccursAt(s, t, r) && forall j :: 0 <= j < r ==> !OccursAt(s, t, j)
    ensures r == -1 <==> !Contains(s, t)
  {
    IndexOfFrom(s, t, 0)
  }

  /** `indexOf` with a one-character needle is the first position holding that character. */
  lemma IndexOfChar(s: string, c: char, k: int)
    requires -1 <= k < |s|
    requires k >= 0 ==> s[k] == c
    requires forall j :: 0 <= j < |s| && (k == -1 || j < k) ==> s[j] != c
    ensures IndexOf(s, [c]) == k
  {
    forall j | 0 <= j < |s|
      ensures OccursAt(s, [c], j) <==> s[j] == c
    {
      assert s[j..j + 1] == [s[j]];
    }
    var r := IndexOf(s, [c]);
    if r >= 0 {
      assert OccursAt(s, [c], r);
    }
  }

  /** `s.lastIndexOf(c)` for a one-character needle. */
  function LastIndexOf(s: string, c: char): (r: int)
    ensures -1 <= r < |s|
    ensures r >= 0 ==> s[r] == c && c !in s[r + 1..]
    ensures r == -1 <==> c !in s
  {
    if |s| == 0 then -1
    else if s[|s| - 1] == c then |s| - 1
    else
      var r := LastIndexOf(s[..|s| - 1], c);
      assert s == s[..|s| - 1] + [s[|s| - 1]];
      r
  }

  /** `s.substring(start)`: the start is clamped into `[0, |s|]`. */
  function Substring(s: string, start: int): (r: string)
    ensures 0 <= start <= |s| ==> r == s[start..]
    ensures start <= 0 ==> r == s
    ensures start >= |s| ==> r == []
  {
    if start <= 0 then s
    else if start >= |s| then []
    else s[start..]
  }

  /** `s.charAt(i)`: a one-character string, or the empty string out of range. */
  function CharAt(s: string, i: int): (r: string)
    ensures 0 <= i < |s| ==> r == [s[i]]
    ensures !(0 <= i < |s|) ==> r == []
  {
    if 0 <= i < |s| then [s[i]] else []
  }

  /**
   * `toLowerCase` on one character, restricted to ASCII: it maps `A`..`Z`
   * to `a`..`z` and leaves every other character alone.
   */
  function LowerChar(c: char): (r: char)
    ensures 'A' <= c <= 'Z' ==> 'a' <= r <= 'z' && r as int - c as int == 32
    ensures !('A' <= c <= 'Z') ==> r == c
  {
    if 'A' <= c <= 'Z' then (c as int + 32) as char else c
  }

  /** `s.toLowerCase()`, character by character. */
  function Lower(s: string): (r: string)
    ensures |r| == |s|
    ensures forall i :: 0 <= i < |s| ==> r[i] == LowerChar(s[i])
  {
    seq(|s|, i requires 0 <= i < |s| => LowerChar(s[i]))
  }

  /** Lower-casing commutes with taking a suffix. */
  lemma LowerSuffix(s: string, k: nat)
    requires k <= |s|
    ensures Lower(s[k..]) == Lower(s)[k..]
  {
  }

  /** Number of occurrences of the character `c` in `s`. */
  function Count(s: string, c: char): nat {
    if |s| == 0 then 0 else (if s[0] == c then 1 else 0) + Count(s[1..], c)
  }

  /**
   * `s.split(sep)` for a one-character separator, scanning left to right;
   * `cur` is the piece read so far.
   */
  function SplitFrom(s: string, sep: char, cur: string): (parts: seq<string>)
    ensures |parts| == Count(s, sep) + 1
  {
    if |s| == 0 then [cur]
    else if s[0] == sep then [cur] + SplitFrom(s[1..], sep, [])
    else SplitFrom(s[1..], sep, cur + [s[0]])
  }

  /**
   * `s.split(sep)`: one more piece than there are separators, no piece holds
   * the separator, and the pieces joined with it give back `s`.
   */
  function Split(s: string, sep: char): (parts: seq<string>)
    ensures |parts| == Count(s, sep) + 1
    ensures forall k :: 0 <= k < |parts| ==> sep !in parts[k]
    ensures Join(parts, sep) == s
  {
    SplitFromPiecesFree(s, sep, []);
    JoinSplitFrom(s, sep, []);
    assert [] + s == s;
    SplitFrom(s, sep, [])
  }

  /**
   * `parts.join(sep)`: the pieces with one separator between neighbours, so
   * separator-free pieces give exactly one separator fewer than pieces.
   */
  function Join(parts: seq<string>, sep: char): (r: string)
    ensures |parts| >= 1 && (forall k :: 0 <= k < |parts| ==> sep !in parts[k]) ==> Count(r, sep) == |parts| - 1
  {
    if |parts| == 0 then []
    else if |parts| == 1 then
      CountAbsent(parts[0], sep);
      parts[0]
    else
      var rest := Join(parts[1..], sep);
      assert forall k :: 0 <= k < |parts[1..]| ==> parts[1..][k] == parts[k + 1];
      JoinStepCount(parts[0], rest, sep);
      parts[0] + [sep] + rest
  }

  /** One separator-free piece and a separator in front of `rest` add one separator. */
  lemma JoinStepCount(p: string, rest: string, sep: char)
    ensures sep !in p ==> Count(p + [sep] + rest, sep) == Count(rest, sep) + 1
  {
    if sep !in p {
      CountAbsent(p, sep);
      CountConcat(p, [sep], sep);
      CountConcat(p + [sep], rest, sep);
    }
  }

  /** A string without `c` has no occurrence of it. */
  lemma {:induction false} CountAbsent(s: string, c: char)
    ensures c !in s ==> Count(s, c) == 0
    decreases |s|
  {
    if |s| > 0 {
      assert forall x :: x in s[1..] ==> x in s;
      CountAbsent(s[1..], c);
    }
  }

  /** Counting is additive over concatenation. */
  lemma {:induction false} CountConcat(a: string, b: string, c: char)
    ensures Count(a + b, c) == Count(a, c) + Count(b, c)
    decreases |a|
  {
    if |a| == 0 {
      assert a + b == b;
    } else {
      assert (a + b)[1..] == a[1..] + b;
      CountConcat(a[1..], b, c);
    }
  }

  lemma {:induction false} SplitFromPiecesFree(s: string, sep: char, cur: string)
    requires sep !in cur
    ensures forall k :: 0 <= k < |SplitFrom(s, sep, cur)| ==> sep !in SplitFrom(s, sep, cur)[k]
    decreases |s|
  {
    if |s| == 0 {
    } else if s[0] == sep {
      SplitFromPiecesFree(s[1..], sep, []);
    } else {
      SplitFromPiecesFree(s[1..], sep, cur + [s[0]]);
    }
  }

  lemma {:induction false} JoinSplitFrom(s: string, sep: char, cur: string)
    ensures Join(SplitFrom(s, sep, cur), sep) == cur + s
    decreases |s|
  {
    if |s| == 0 {
    } else if s[0] == sep {
      JoinSplitFrom(s[1..], sep, []);
      assert s == [sep] + s[1..];
    } else {
      JoinSplitFrom(s[1..], sep, cur + [s[0]]);
      assert s == [s[0]] + s[1..];
    }
  }

  /** Reading a separator-free chunk only extends the current piece. */
  lemma {:induction false} SplitFromChunk(p: string, rest: string, sep: char, cur: string)
    requires sep !in p
    ensures SplitFrom(p + rest, sep, cur) == SplitFrom(rest, sep, cur + p)
    decreases |p|
  {
    if |p| == 0 {
      assert p + rest == rest;
      assert cur + p == cur;
    } else {
      assert (p + rest)[1..] == p[1..] + rest;
      SplitFromChunk(p[1..], rest, sep, cur + [p[0]]);
      assert cur + [p[0]] + p[1..] == cur + p;
    }
  }

  lemma {:induction false} SplitFromJoin(parts: seq<string>, sep: char, cur: string)
    requires |parts| >= 1
    requires forall k :: 0 <= k < |parts| ==> sep !in parts[k]
    ensures SplitFrom(Join(parts, sep), sep, cur) == [cur + parts[0]] + parts[1..]
    decreases |parts|
  {
    if |parts| == 1 {
      SplitFromChunk(parts[0], [], sep, cur);
      assert parts[0] + [] == parts[0];
    } else {
      var rest := Join(parts[1..], sep);
      assert Join(parts, sep) == parts[0] + ([sep] + rest);
      SplitFromChunk(parts[0], [sep] + rest, sep, cur);
      assert ([sep] + rest)[1..] == rest;
      SplitFromJoin(parts[1..], sep, []);
      assert [] + parts[1][0..] == parts[1];
      assert [parts[1]] + parts[1..][1..] == parts[1..];
    }
  }

  /**
   * `split` and `join` with the same one-character separator are inverse:
   * joining the pieces gives back the string, the pieces never contain the
   * separator, and splitting a join of separator-free pieces gives back the
   * pieces.
   */
  lemma SplitJoinRoundTrip(s: string, parts: seq<string>, sep: char)
    ensures Join(Split(s, sep), sep) == s
    ensures forall k :: 0 <= k < |Split(s, sep)| ==> sep !in Split(s, sep)[k]
    ensures |parts| >= 1 && (forall k :: 0 <= k < |parts| ==> sep !in parts[k]) ==>
              Split(Join(parts, sep), sep) == parts
  {
    JoinSplitFrom(s, sep, []);
    assert [] + s == s;
    SplitFromPiecesFree(s, sep, []);
    if |parts| >= 1 && (forall k :: 0 <= k < |parts| ==> sep !in parts[k]) {
      SplitFromJoin(parts, sep, []);
      assert [] + parts[0] == parts[0];
      assert [parts[0]] + parts[1..] == parts;
    }
  }

  /**
   * `a <= b` on strings: lexicographic comparison character by character,
   * a proper prefix sorting first.
   */
  predicate LexLe(a: string, b: string) {
    |a| == 0 || (|b| > 0 && (a[0] < b[0] || (a[0] == b[0] && LexLe(a[1..], b[1..]))))
  }

  lemma {:induction false} LexLeReflexive(a: string)
    ensures LexLe(a, a)
    decreases |a|
  {
    if |a| > 0 {
      LexLeReflexive(a[1..]);
    }
  }

  lemma {:induction false} LexLeTotal(a: string, b: string)
    ensures LexLe(a, b) || LexLe(b, a)
    decreases |a|
  {
    if |a| > 0 && |b| > 0 && a[0] == b[0] {
      LexLeTotal(a[1..], b[1..]);
    }
  }

  lemma {:induction false} LexLeTransitive(a: string, b: string, c: string)
    requires LexLe(a, b) && LexLe(b, c)
    ensures LexLe(a, c)
    decreases |a|
  {
    if |a| > 0 && a[0] == b[0] && b[0] == c[0] {
      LexLeTransitive(a[1..], b[1..], c[1..]);
    }
  }

  lemma {:induction false} LexLeAntisymmetric(a: string, b: string)
    requires LexLe(a, b) && LexLe(b, a)
    ensures a == b
    decreases |a|
  {
    if |a| > 0 {
      LexLeAntisymmetric(a[1..], b[1..]);
      assert a == [a[0]] + a[1..];
      assert b == [b[0]] + b[1..];
    }
  }

  /** A common prefix does not change how two strings compare. */
  lemma {:induction false} LexLePrefix(p: string, a: string, b: string)
    ensures LexLe(p + a, p + b) <==> LexLe(a, b)
    decreases |p|
  {
    if |p| > 0 {
      assert (p + a)[1..] == p[1..] + a;
      assert (p + b)[1..] == p[1..] + b;
      LexLePrefix(p[1..], a, b);
    } else {
      assert p + a == a;
      assert p + b == b;
    }
  }
}
