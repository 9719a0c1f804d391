/**
 * The pure part of `createAllFilesAsync`: the text of the index file is cut
 * into lines at `\r?\n`, the segment after the last line break is dropped,
 * the lines are sorted and each is placed under the reading root.
 */
module IndexLoader {
  import opened JsString

  /** The directory the index file and the books are served from. */
  const ReadingRoot: string := "/data/"

  /**
   * `split(/\r?\n/)` scanning left to right; `cur` is the line read so far.
   * A carriage return directly before a line feed belongs to the break; any
   * other carriage return stays in the line.
   */
  function SplitLinesFrom(s: string, cur: string): (lines: seq<string>)
    ensures |lines| >= 1
  {
    if |s| == 0 then [cur]
    else if |s| >= 2 && s[0] == '\r' && s[1] == '\n' then [cur] + SplitLinesFrom(s[2..], [])
    else if s[0] == '\n' then [cur] + SplitLinesFrom(s[1..], [])
    else SplitLinesFrom(s[1..], cur + [s[0]])
  }

  /**
   * `text.split(/\r?\n/)`: one more line than the text has line feeds;
   * `SplitLinesCharacterisation` states what the lines are.
   */
  function SplitLines(text: string): (lines: seq<string>)
    ensures |lines| == Count(text, '\n') + 1
  {
    SplitLinesFromIsSplit(text, []);
    SplitLinesFrom(text, [])
  }

  /** Every `\r\n` replaced by `\n`, left to right. */
  function NormalizeBreaks(s: string): (r: string)
    ensures Count(r, '\n') == Count(s, '\n')
  {
    if |s| == 0 then []
    else if |s| >= 2 && s[0] == '\r' && s[1] == '\n' then
      var r := "\n" + NormalizeBreaks(s[2..]);
      assert r[1..] == NormalizeBreaks(s[2..]);
      assert s[1..][1..] == s[2..];
      r
    else
      var r := [s[0]] + NormalizeBreaks(s[1..]);
      assert r[1..] == NormalizeBreaks(s[1..]);
      r
  }

  lemma {:induction false} SplitLinesFromIsSplit(s: string, cur: string)
    ensures SplitLinesFrom(s, cur) == SplitFrom(NormalizeBreaks(s), '\n', cur)
    decreases |s|
  {
    if |s| == 0 {
    } else if |s| >= 2 && s[0] == '\r' && s[1] == '\n' {
      SplitLinesFromIsSplit(s[2..], []);
      assert ("\n" + NormalizeBreaks(s[2..]))[1..] == NormalizeBreaks(s[2..]);
    } else {
      SplitLinesFromIsSplit(s[1..], if s[0] == '\n' then [] else cur + [s[0]]);
      assert ([s[0]] + NormalizeBreaks(s[1..]))[1..] == NormalizeBreaks(s[1..]);
    }
  }

  /**
   * Splitting at `\r?\n` is splitting at line feeds once every `\r\n` has
   * become `\n`; so there is one more segment than there are line feeds,
   * and no segment holds a line feed.
   */
  lemma SplitLinesCharacterisation(text: string)
    ensures SplitLines(text) == Split(NormalizeBreaks(text), '\n')
    ensures |SplitLines(text)| == Count(text, '\n') + 1
    ensures forall k :: 0 <= k < |SplitLines(text)| ==> '\n' !in SplitLines(text)[k]
  {
    SplitLinesFromIsSplit(text, []);
    SplitJoinRoundTrip(NormalizeBreaks(text), [], '\n');
  }

  /** Each string is at most the next one in the order of `<`. */
  predicate Sorted(s: seq<string>) {
    forall i, j :: 0 <= i < j < |s| ==> LexLe(s[i], s[j])
  }

  /** Places `x` before the first element it does not follow. */
  function Insert(x: string, s: seq<string>): (r: seq<string>)
    requires Sorted(s)
    ensures Sorted(r)
    ensures multiset(r) == multiset(s) + multiset{x}
    ensures |r| > 0 && (r[0] == x || (|s| > 0 && r[0] == s[0]))
  {
    if |s| == 0 then [x]
    else if LexLe(x, s[0]) then
      InsertFront(x, s);
      [x] + s
    else
      var tail := Insert(x, s[1..]);
      LexLeTotal(x, s[0]);
      InsertBehind(s[0], tail);
      assert s == [s[0]] + s[1..];
      [s[0]] + tail
  }

  lemma InsertFront(x: string, s: seq<string>)
    requires Sorted(s) && |s| > 0 && LexLe(x, s[0])
    ensures Sorted([x] + s)
  {
    forall j | 0 <= j < |s|
      ensures LexLe(x, s[j])
    {
      if j > 0 {
        LexLeTransitive(x, s[0], s[j]);
      }
    }
    var r := [x] + s;
    forall i, j | 0 <= i < j < |r|
      ensures LexLe(r[i], r[j])
    {
      assert r[j] == s[j - 1];
      if i > 0 {
        assert r[i] == s[i - 1];
      }
    }
  }

  lemma InsertBehind(y: string, tail: seq<string>)
    requires Sorted(tail) && (|tail| > 0 ==> LexLe(y, tail[0]))
    ensures Sorted([y] + tail)
  {
    if |tail| > 0 {
      InsertFront(y, tail);
    }
  }

  /** Array `sort()` with the default order: an ascending permutation. */
  function Sort(s: seq<string>): (r: seq<string>)
    ensures Sorted(r)
    ensures multiset(r) == multiset(s)
  {
    if |s| == 0 then []
    else
      assert s == [s[0]] + s[1..];
      Insert(s[0], Sort(s[1..]))
  }

  /** Two ascending permutations of the same strings are the same sequence. */
  lemma {:induction false} SortedPermutationUnique(a: seq<string>, b: seq<string>)
    requires Sorted(a) && Sorted(b) && multiset(a) == multiset(b)
    ensures a == b
    decreases |a|
  {
    assert |a| == |multiset(a)| == |multiset(b)| == |b|;
    if |a| > 0 {
      SortedHeadsAgree(a, b);
      SortedTail(a);
      SortedTail(b);
      assert multiset(a[1..]) == multiset(b[1..]) by {
        assert a == [a[0]] + a[1..];
        assert b == [b[0]] + b[1..];
        assert multiset(a[1..]) == multiset(a) - multiset{a[0]};
        assert multiset(b[1..]) == multiset(b) - multiset{b[0]};
      }
      SortedPermutationUnique(a[1..], b[1..]);
      assert a == [a[0]] + a[1..];
      assert b == [b[0]] + b[1..];
    }
  }

  /** Two ascending permutations of the same strings start with the same string. */
  lemma SortedHeadsAgree(a: seq<string>, b: seq<string>)
    requires Sorted(a) && Sorted(b) && multiset(a) == multiset(b) && |a| > 0 && |b| > 0
    ensures a[0] == b[0]
  {
    assert a[0] in multiset(b) && b[0] in multiset(a);
    var i :| 0 <= i < |b| && b[i] == a[0];
    var j :| 0 <= j < |a| && a[j] == b[0];
    LexLeReflexive(a[0]);
    LexLeReflexive(b[0]);
    assert LexLe(b[0], b[i]);
    assert LexLe(a[0], a[j]);
    LexLeAntisymmetric(a[0], b[0]);
  }

  lemma SortedTail(a: seq<string>)
    requires Sorted(a) && |a| > 0
    ensures Sorted(a[1..])
  {
    forall p, q | 0 <= p < q < |a[1..]|
      ensures LexLe(a[1..][p], a[1..][q])
    {
      assert a[1..][p] == a[p + 1] && a[1..][q] == a[q + 1];
    }
  }

  /** Every line placed under the reading root: `.map(f => READING_ROOT + f)`. */
  function Rooted(lines: seq<string>): (files: seq<string>)
    ensures |files| == |lines|
    ensures forall k :: 0 <= k < |lines| ==> IsRooted(files[k]) && files[k][|ReadingRoot|..] == lines[k]
  {
    seq(|lines|, k requires 0 <= k < |lines| => ReadingRoot + lines[k])
  }

  /** The entry lies under the reading root. */
  predicate IsRooted(file: string) {
    |ReadingRoot| <= |file| && file[..|ReadingRoot|] == ReadingRoot
  }

  /** `allFilesString.split(/\r?\n/).slice(0, -1).sort().map(f => READING_ROOT + f)`. */
  function ParseIndex(text: string): (files: seq<string>)
    ensures |files| == Count(text, '\n')
    ensures forall k :: 0 <= k < |files| ==> IsRooted(files[k]) && '\n' !in files[k][|ReadingRoot|..]
  {
    var lines := SplitLines(text);
    var kept := lines[..|lines| - 1];
    SplitLinesCharacterisation(text);
    SortKeepsLinesFree(kept);
    Rooted(Sort(kept))
  }

  /** Sorting lines free of line feeds gives lines free of line feeds. */
  lemma SortKeepsLinesFree(lines: seq<string>)
    requires forall k :: 0 <= k < |lines| ==> '\n' !in lines[k]
    ensures |Sort(lines)| == |lines|
    ensures forall k :: 0 <= k < |Sort(lines)| ==> '\n' !in Sort(lines)[k]
  {
    var sorted := Sort(lines);
    assert |sorted| == |multiset(sorted)| == |multiset(lines)| == |lines|;
    forall k | 0 <= k < |sorted|
      ensures '\n' !in sorted[k]
    {
      var p := PermutedFrom(sorted, lines, k);
    }
  }

  /** Rooting keeps an ascending order. */
  lemma RootedSorted(lines: seq<string>)
    requires Sorted(lines)
    ensures Sorted(Rooted(lines))
  {
    var files := Rooted(lines);
    forall i, j | 0 <= i < j < |files|
      ensures LexLe(files[i], files[j])
    {
      LexLePrefix(ReadingRoot, lines[i], lines[j]);
    }
  }

  /** Rooting is injective: the line is what follows the root. */
  lemma RootedCancel(x: string, z: string)
    ensures ReadingRoot + x == ReadingRoot + z <==> x == z
  {
    assert (ReadingRoot + x)[|ReadingRoot|..] == x;
    assert (ReadingRoot + z)[|ReadingRoot|..] == z;
  }

  /** The rooted form of `x` occurs among the rooted lines as often as `x` among the lines. */
  lemma {:induction false} RootedCount(lines: seq<string>, x: string)
    ensures multiset(Rooted(lines))[ReadingRoot + x] == multiset(lines)[x]
    decreases |lines|
  {
    if |lines| > 0 {
      RootedCons(lines);
      ConsCount(lines[0], lines[1..], x);
      assert [lines[0]] + lines[1..] == lines;
      ConsCount(ReadingRoot + lines[0], Rooted(lines[1..]), ReadingRoot + x);
      RootedCancel(lines[0], x);
      RootedCount(lines[1..], x);
    }
  }

  /** An entry that is not under the root is not among the rooted lines. */
  lemma UnrootedCount(lines: seq<string>, y: string)
    requires !IsRooted(y)
    ensures multiset(Rooted(lines))[y] == 0
  {
    assert forall k :: 0 <= k < |Rooted(lines)| ==> Rooted(lines)[k] != y;
  }

  lemma RootedCons(lines: seq<string>)
    requires |lines| > 0
    ensures Rooted(lines) == [ReadingRoot + lines[0]] + Rooted(lines[1..])
  {
  }

  /** The count of `y` in a sequence with `a` in front. */
  lemma ConsCount(a: string, s: seq<string>, y: string)
    ensures multiset([a] + s)[y] == (if a == y then 1 else 0) + multiset(s)[y]
  {
    assert multiset([a] + s) == multiset{a} + multiset(s);
  }

  /** Rooting a permutation of the lines gives a permutation of the entries. */
  lemma RootedPermutation(a: seq<string>, b: seq<string>)
    requires multiset(a) == multiset(b)
    ensures multiset(Rooted(a)) == multiset(Rooted(b))
  {
    forall y
      ensures multiset(Rooted(a))[y] == multiset(Rooted(b))[y]
    {
      if IsRooted(y) {
        var x := y[|ReadingRoot|..];
        assert y == ReadingRoot + x;
        RootedCount(a, x);
        RootedCount(b, x);
      } else {
        UnrootedCount(a, y);
        UnrootedCount(b, y);
      }
    }
  }

  /**
   * The index: one entry per line feed of the text (a last line without a
   * line feed is lost), each entry the reading root followed by a line free
   * of line feeds, ascending, and as a multiset exactly the rooted lines
   * that precede a line break; so it is the rooted lines, sorted.
   */
  lemma ParseIndexContract(text: string)
    ensures |ParseIndex(text)| == Count(text, '\n')
    ensures Sorted(ParseIndex(text))
    ensures forall k :: 0 <= k < |ParseIndex(text)| ==>
              IsRooted(ParseIndex(text)[k]) && '\n' !in ParseIndex(text)[k][|ReadingRoot|..]
    ensures var lines := SplitLines(text);
            && multiset(ParseIndex(text)) == multiset(Rooted(lines[..|lines| - 1]))
            && ParseIndex(text) == Sort(Rooted(lines[..|lines| - 1]))
  {
    var lines := SplitLines(text);
    var kept := lines[..|lines| - 1];
    ParseIndexSorted(text);
    ParseIndexPermutation(text);
    SortedPermutationUnique(ParseIndex(text), Sort(Rooted(kept)));
  }

  lemma ParseIndexSorted(text: string)
    ensures Sorted(ParseIndex(text))
  {
    var lines := SplitLines(text);
    var sorted := Sort(lines[..|lines| - 1]);
    assert ParseIndex(text) == Rooted(sorted);
    RootedSorted(sorted);
  }

  lemma ParseIndexPermutation(text: string)
    ensures var lines := SplitLines(text);
            multiset(ParseIndex(text)) == multiset(Rooted(lines[..|lines| - 1]))
  {
    var lines := SplitLines(text);
    var kept := lines[..|lines| - 1];
    assert ParseIndex(text) == Rooted(Sort(kept));
    RootedPermutation(Sort(kept), kept);
  }

  /** Each element of a permutation of `b` sits at some position of `b`. */
  lemma PermutedFrom(a: seq<string>, b: seq<string>, k: nat) returns (p: nat)
    requires multiset(a) == multiset(b) && k < |a|
    ensures p < |b| && b[p] == a[k]
  {
    assert a[k] in multiset(b);
    p :| 0 <= p < |b| && b[p] == a[k];
  }

  /** The example index `a.cbr`, `b.cbr` with a final line feed. */
  lemma ParseIndexExample()
    ensures ParseIndex("a.cbr\nb.cbr\n") == ["/data/a.cbr", "/data/b.cbr"]
  {
    var lines := SplitLines("a.cbr\nb.cbr\n");
    SplitLinesExample();
    assert lines == SplitLinesFrom("a.cbr\nb.cbr\n", []);
    assert lines[..|lines| - 1] == ["a.cbr", "b.cbr"];
    SortExample();
    RootedExample();
  }

  lemma RootedExample()
    ensures Rooted(["a.cbr", "b.cbr"]) == ["/data/a.cbr", "/data/b.cbr"]
  {
    var kept := ["a.cbr", "b.cbr"];
    assert ReadingRoot + kept[0] == "/data/a.cbr";
    assert ReadingRoot + kept[1] == "/data/b.cbr";
  }

  lemma SortExample()
    ensures Sort(["a.cbr", "b.cbr"]) == ["a.cbr", "b.cbr"]
  {
    var kept := ["a.cbr", "b.cbr"];
    assert LexLe("a.cbr", "b.cbr");
    assert Sorted(kept);
    SortedPermutationUnique(Sort(kept), kept);
  }

  lemma SplitLinesExample()
    ensures SplitLinesFrom("a.cbr\nb.cbr\n", []) == ["a.cbr", "b.cbr", ""]
  {
    var text := "a.cbr\nb.cbr\n";
    assert text == "a.cbr" + ("\n" + "b.cbr\n");
    SplitLinesChunk("a.cbr", "\n" + "b.cbr\n", []);
    assert [] + "a.cbr" == "a.cbr";
    assert ("\n" + "b.cbr\n")[1..] == "b.cbr\n";
    assert SplitLinesFrom(text, []) == ["a.cbr"] + SplitLinesFrom("b.cbr\n", []);
    SplitLinesExampleTail();
  }

  lemma SplitLinesExampleTail()
    ensures SplitLinesFrom("b.cbr\n", []) == ["b.cbr", ""]
  {
    assert "b.cbr\n" == "b.cbr" + "\n";
    SplitLinesChunk("b.cbr", "\n", []);
    assert [] + "b.cbr" == "b.cbr";
    assert "\n"[1..] == [];
    assert SplitLinesFrom("\n", "b.cbr") == ["b.cbr"] + SplitLinesFrom([], []);
  }

  /** A chunk without line breaks only extends the current line. */
  lemma {:induction false} SplitLinesChunk(p: string, rest: string, cur: string)
    requires '\n' !in p && '\r' !in p
    ensures SplitLinesFrom(p + rest, cur) == SplitLinesFrom(rest, cur + p)
    decreases |p|
  {
    if |p| == 0 {
      assert p + rest == rest;
      assert cur + p == cur;
    } else {
      assert (p + rest)[1..] == p[1..] + rest;
      SplitLinesChunk(p[1..], rest, cur + [p[0]]);
      assert cur + [p[0]] + p[1..] == cur + p;
    }
  }
}
