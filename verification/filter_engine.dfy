/**
 * The filter behind the search box (`populateFullList`): the query is cut
 * into lower-cased terms at single spaces, every path is tested against the
 * chain of terms, and the kept paths are shaded in alternating groups by the
 * common prefix of neighbouring file names.
 */
module FilterEngine {
  import opened JsString
  import opened FileNames

  /** The shading flips when neighbouring names share fewer characters than this. */
  const GroupPrefixLength: nat := 6

  /** A kept path with its shading marker (`even` true renders as the even class). */
  datatype Row = Row(file: string, even: bool)

  /** The previous kept file name: `undefined` before the first kept path. */
  datatype PrevName = Undefined | Name(name: string)

  /** JavaScript truthiness of the previous name: `undefined` and `''` are falsy. */
  predicate Truthy(prev: PrevName) {
    prev.Name? && prev.name != []
  }

  /** `query.split(' ').map(s => s.toLowerCase())`. */
  function QueryTerms(query: string): (terms: seq<string>)
    ensures |terms| == Count(query, ' ') + 1
  {
    var parts := Split(query, ' ');
    seq(|parts|, k requires 0 <= k < |parts| => Lower(parts[k]))
  }

  /**
   * The query terms are the space-separated pieces of the query, lower-cased
   * and in order: none holds a space, and joining them again with single
   * spaces gives back the lower-cased query.
   */
  lemma QueryTermsArePieces(query: string)
    ensures forall k :: 0 <= k < |QueryTerms(query)| ==> ' ' !in QueryTerms(query)[k]
    ensures Join(QueryTerms(query), ' ') == Lower(query)
  {
    var parts := Split(query, ' ');
    SplitJoinRoundTrip(query, [], ' ');
    forall k | 0 <= k < |parts|
      ensures ' ' !in QueryTerms(query)[k]
    {
      assert ' ' !in parts[k];
      assert forall j :: 0 <= j < |parts[k]| ==> QueryTerms(query)[k][j] == LowerChar(parts[k][j]);
    }
    JoinLower(parts);
  }

  /** Lower-casing every piece and then joining equals lower-casing the join. */
  lemma {:induction false} JoinLower(parts: seq<string>)
    ensures Join(seq(|parts|, k requires 0 <= k < |parts| => Lower(parts[k])), ' ') == Lower(Join(parts, ' '))
    decreases |parts|
  {
    var lowered := seq(|parts|, k requires 0 <= k < |parts| => Lower(parts[k]));
    if |parts| > 1 {
      JoinLower(parts[1..]);
      assert lowered[1..] == seq(|parts[1..]|, k requires 0 <= k < |parts[1..]| => Lower(parts[1..][k]));
      LowerConcat(parts[0] + [' '], Join(parts[1..], ' '));
      LowerConcat(parts[0], [' ']);
    }
  }

  lemma LowerConcat(a: string, b: string)
    ensures Lower(a + b) == Lower(a) + Lower(b)
  {
  }

  /** An empty query is the single empty term. */
  lemma EmptyQueryTerms()
    ensures QueryTerms("") == [""]
  {
    assert Split("", ' ') == [""];
  }

  /**
   * The inner loop of `populateFullList` from one cursor on: each term is
   * searched in the lower-cased rest of the path after `cursor`, and the
   * position found, which is relative to that rest, becomes the next cursor
   * as if it were a position in the whole path. The first miss rejects.
   */
  function MatchesFrom(file: string, terms: seq<string>, cursor: int): (r: bool)
    ensures r ==> forall k :: 0 <= k < |terms| ==> Contains(Lower(file), terms[k])
    decreases |terms|
  {
    if |terms| == 0 then true
    else
      var matchedIndex := IndexOf(Lower(Substring(file, cursor)), terms[0]);
      if matchedIndex == -1 then false
      else
        ContainsInSuffix(file, cursor, terms[0]);
        assert forall k :: 1 <= k < |terms| ==> terms[k] == terms[1..][k - 1];
        MatchesFrom(file, terms[1..], matchedIndex)
  }

  /** Whether the path is kept for these terms; the cursor starts at 0. */
  predicate Matches(file: string, terms: seq<string>) {
    MatchesFrom(file, terms, 0)
  }

  /** A path is kept for a single term exactly when it contains that term, ignoring case. */
  lemma SingleTermMatch(file: string, term: string)
    ensures Matches(file, [term]) <==> Contains(Lower(file), term)
  {
    var m := IndexOf(Lower(Substring(file, 0)), term);
    assert Substring(file, 0) == file;
    assert [term][1..] == [];
    assert MatchesFrom(file, [term], 0) <==> m != -1;
  }

  /** A term found after a cursor is found in the whole lower-cased path. */
  lemma ContainsInSuffix(file: string, cursor: int, term: string)
    requires Contains(Lower(Substring(file, cursor)), term)
    ensures Contains(Lower(file), term)
  {
    var rest := Substring(file, cursor);
    var offset := |file| - |rest|;
    assert rest == file[offset..];
    LowerSuffix(file, offset);
    var k :| OccursAt(Lower(rest), term, k);
    OccursInSuffix(Lower(file), offset, term, k);
  }

  /** An occurrence in a suffix is an occurrence in the whole string, shifted by the suffix's start. */
  lemma OccursInSuffix(s: string, offset: nat, t: string, k: int)
    requires offset <= |s| && OccursAt(s[offset..], t, k)
    ensures OccursAt(s, t, offset + k)
  {
    assert s[offset..][k..k + |t|] == s[offset + k..offset + k + |t|];
  }

  lemma {:induction false} EmptyTermsMatchFrom(file: string, terms: seq<string>, cursor: int)
    requires forall k :: 0 <= k < |terms| ==> terms[k] == []
    ensures MatchesFrom(file, terms, cursor)
    decreases |terms|
  {
    if |terms| > 0 {
      assert OccursAt(Lower(Substring(file, cursor)), terms[0], 0);
      EmptyTermsMatchFrom(file, terms[1..], 0);
    }
  }

  /** Terms that are all empty (the empty query, runs of spaces) keep every path. */
  lemma EmptyTermsMatchEverything(file: string, terms: seq<string>)
    requires forall k :: 0 <= k < |terms| ==> terms[k] == []
    ensures Matches(file, terms)
  {
    EmptyTermsMatchFrom(file, terms, 0);
  }

  /**
   * Reference matcher with an absolute cursor: each term must occur at or
   * after the position where the previous term was found in the whole
   * lower-cased path. The filter does NOT use it; it is the reading in which
   * the terms are found in order.
   */
  function MatchesInOrderFrom(lowered: string, terms: seq<string>, pos: nat): bool
    requires pos <= |lowered|
    decreases |terms|
  {
    if |terms| == 0 then true
    else
      var m := IndexOf(lowered[pos..], terms[0]);
      if m == -1 then false
      else MatchesInOrderFrom(lowered, terms[1..], pos + m)
  }

  lemma {:induction false} InOrderImpliesMatchesFrom(file: string, terms: seq<string>, cursor: nat, pos: nat)
    requires cursor <= pos <= |file|
    requires MatchesInOrderFrom(Lower(file), terms, pos)
    ensures MatchesFrom(file, terms, cursor)
    decreases |terms|
  {
    if |terms| > 0 {
      var found := pos + IndexOf(Lower(file)[pos..], terms[0]);
      assert MatchesInOrderFrom(Lower(file), terms[1..], found);
      var c := CursorNotAfterMatch(file, terms[0], cursor, pos);
      InOrderImpliesMatchesFrom(file, terms[1..], c, found);
      assert MatchesFrom(file, terms, cursor) == MatchesFrom(file, terms[1..], c);
    }
  }

  /**
   * One step of the comparison: when the term occurs at or after `pos` in
   * the whole path, the page's search from a cursor at or before `pos` finds
   * it, at a relative position `c` that is at most the absolute position of
   * that occurrence.
   */
  lemma CursorNotAfterMatch(file: string, t: string, cursor: nat, pos: nat) returns (c: nat)
    requires cursor <= pos <= |file|
    requires IndexOf(Lower(file)[pos..], t) != -1
    ensures c == IndexOf(Lower(Substring(file, cursor)), t)
    ensures c <= pos + IndexOf(Lower(file)[pos..], t) <= |file|
  {
    var lowered := Lower(file);
    var m := IndexOf(lowered[pos..], t);
    var found := pos + m;
    assert OccursAt(lowered, t, found) by {
      assert lowered[pos..][m..m + |t|] == lowered[found..found + |t|];
    }
    LowerSuffix(file, cursor);
    var rest := Lower(Substring(file, cursor));
    assert rest == lowered[cursor..];
    assert OccursAt(rest, t, found - cursor) by {
      assert rest[found - cursor..found - cursor + |t|] == lowered[found..found + |t|];
    }
    c := IndexOf(rest, t);
  }

  /**
   * Because the reused cursor never lies after the true position of the
   * previous match, the filter keeps every path whose terms occur in order:
   * it accepts at least what the absolute-cursor reading accepts.
   */
  lemma InOrderImpliesMatches(file: string, terms: seq<string>)
    requires MatchesInOrderFrom(Lower(file), terms, 0)
    ensures Matches(file, terms)
  {
    InOrderImpliesMatchesFrom(file, terms, 0, 0);
  }

  /**
   * The reuse of a relative position as a cursor can also accept a path whose
   * terms do not occur in order: for `"xcxab"` and terms `a`, `b`, `c` the
   * cursor goes 3, then 1 (the `b` in `"ab"`), and `c` is then found at 1.
   */
  lemma CursorReuseAcceptsOutOfOrder()
    ensures Matches("xcxab", ["a", "b", "c"])
    ensures !MatchesInOrderFrom(Lower("xcxab"), ["a", "b", "c"], 0)
  {
    assert Lower("xcxab") == "xcxab";
    IndexOfChar("xcxab", 'a', 3);
    IndexOfChar("ab", 'b', 1);
    IndexOfChar("cxab", 'c', 0);
    IndexOfChar("b", 'c', -1);
    assert "a" == ['a'] && "b" == ['b'] && "c" == ['c'];
    assert Substring("xcxab", 3) == "ab";
    assert Substring("xcxab", 1) == "cxab";
    assert Lower("ab") == "ab";
    assert Lower("cxab") == "cxab";
    assert ["a", "b", "c"][1..] == ["b", "c"];
    assert ["b", "c"][1..] == ["c"];
    assert ["c"][1..] == [];
    assert "xcxab"[3..] == "ab";
    assert "xcxab"[4..] == "b";
  }

  /**
   * The shading marker of a kept path given the previous kept name: it flips
   * exactly when there is a non-empty previous name and the two names do not
   * begin with the same `GroupPrefixLength` characters.
   */
  function NextMarker(prev: PrevName, name: string, even: bool): (r: bool)
    ensures r != even <==> Truthy(prev) && !SharesGroupPrefix(prev.name, name)
  {
    if Truthy(prev) then
      GroupPrefixShared(prev.name, name);
      if |ExtractCommonPrefix(prev.name, name)| < GroupPrefixLength then !even else even
    else even
  }

  /** Both names are long enough and agree on their first `GroupPrefixLength` characters. */
  predicate SharesGroupPrefix(a: string, b: string) {
    GroupPrefixLength <= |a| && GroupPrefixLength <= |b| && a[..GroupPrefixLength] == b[..GroupPrefixLength]
  }

  /** The `prefix.length < 6` test is the negation of sharing the first six characters. */
  lemma GroupPrefixShared(a: string, b: string)
    ensures |ExtractCommonPrefix(a, b)| >= GroupPrefixLength <==> SharesGroupPrefix(a, b)
  {
    if GroupPrefixLength <= |a| && GroupPrefixLength <= |b| {
      CommonPrefixIsLongest(a, b, GroupPrefixLength);
    }
  }

  /**
   * The outer loop of `populateFullList` from position `i` of the index on,
   * with the previous kept name and the current marker.
   */
  function ScanFrom(allFiles: seq<string>, terms: seq<string>, i: nat, prev: PrevName, even: bool): (rows: seq<Row>)
    requires i <= |allFiles|
    ensures |rows| <= |allFiles| - i
    decreases |allFiles| - i
  {
    if i == |allFiles| then []
    else if !Matches(allFiles[i], terms) then ScanFrom(allFiles, terms, i + 1, prev, even)
    else
      var thisFilename := ExtractFilename(allFiles[i]);
      var even' := NextMarker(prev, thisFilename, even);
      [Row(allFiles[i], even')] + ScanFrom(allFiles, terms, i + 1, Name(thisFilename), even')
  }

  /** `populateFullList(query)`: the kept paths of the index, in order, with their markers. */
  function Filter(allFiles: seq<string>, query: string): (rows: seq<Row>)
    ensures |rows| <= |allFiles|
    ensures forall k :: 0 <= k < |rows| ==> rows[k].file in allFiles && Matches(rows[k].file, QueryTerms(query))
  {
    ScanFollowsKeptIndices(allFiles, QueryTerms(query), 0, Undefined, false);
    ScanFrom(allFiles, QueryTerms(query), 0, Undefined, false)
  }

  /** The paths of the rows: what `filteredList` holds. */
  function Files(rows: seq<Row>): (files: seq<string>)
    ensures |files| == |rows|
    ensures forall k :: 0 <= k < |rows| ==> files[k] == rows[k].file
  {
    seq(|rows|, k requires 0 <= k < |rows| => rows[k].file)
  }

  /** The positions, from `i` on, of the paths the terms keep. */
  ghost function KeptIndicesFrom(allFiles: seq<string>, terms: seq<string>, i: nat): (idx: seq<nat>)
    requires i <= |allFiles|
    ensures forall k :: 0 <= k < |idx| ==> i <= idx[k] < |allFiles| && Matches(allFiles[idx[k]], terms)
    ensures forall k, l :: 0 <= k < l < |idx| ==> idx[k] < idx[l]
    ensures forall j :: i <= j < |allFiles| && Matches(allFiles[j], terms) ==> j in idx
    decreases |allFiles| - i
  {
    if i == |allFiles| then []
    else if Matches(allFiles[i], terms) then [i] + KeptIndicesFrom(allFiles, terms, i + 1)
    else KeptIndicesFrom(allFiles, terms, i + 1)
  }

  /** The k-th row holds the path at position `idx[k]` of the index. */
  predicate RowsAt(rows: seq<Row>, allFiles: seq<string>, idx: seq<nat>) {
    && |rows| == |idx|
    && forall k :: 0 <= k < |idx| ==> idx[k] < |allFiles| && rows[k].file == allFiles[idx[k]]
  }

  lemma RowsAtCons(r: Row, rows: seq<Row>, allFiles: seq<string>, i: nat, idx: seq<nat>)
    requires i < |allFiles| && r.file == allFiles[i]
    requires RowsAt(rows, allFiles, idx)
    ensures RowsAt([r] + rows, allFiles, [i] + idx)
  {
    forall k | 1 <= k < |idx| + 1
      ensures ([r] + rows)[k].file == allFiles[([i] + idx)[k]]
    {
      assert ([r] + rows)[k] == rows[k - 1];
      assert ([i] + idx)[k] == idx[k - 1];
    }
  }

  lemma {:induction false} ScanFollowsKeptIndices(allFiles: seq<string>, terms: seq<string>, i: nat, prev: PrevName, even: bool)
    requires i <= |allFiles|
    ensures RowsAt(ScanFrom(allFiles, terms, i, prev, even), allFiles, KeptIndicesFrom(allFiles, terms, i))
    decreases |allFiles| - i
  {
    if i < |allFiles| {
      var rows := ScanFrom(allFiles, terms, i, prev, even);
      var idx := KeptIndicesFrom(allFiles, terms, i);
      if Matches(allFiles[i], terms) {
        var name := ExtractFilename(allFiles[i]);
        var marker := NextMarker(prev, name, even);
        var tail := ScanFrom(allFiles, terms, i + 1, Name(name), marker);
        var tailIdx := KeptIndicesFrom(allFiles, terms, i + 1);
        assert rows == [Row(allFiles[i], marker)] + tail;
        assert idx == [i] + tailIdx;
        ScanFollowsKeptIndices(allFiles, terms, i + 1, Name(name), marker);
        RowsAtCons(Row(allFiles[i], marker), tail, allFiles, i, tailIdx);
      } else {
        assert rows == ScanFrom(allFiles, terms, i + 1, prev, even);
        assert idx == KeptIndicesFrom(allFiles, terms, i + 1);
        ScanFollowsKeptIndices(allFiles, terms, i + 1, prev, even);
      }
    }
  }

  /**
   * The filtered list is an order-preserving subsequence of the index: the
   * k-th row is the path at a strictly increasing position `idx[k]`, and a
   * path of the index is among those positions exactly when it matches.
   */
  lemma FilterIsOrderedSubsequence(allFiles: seq<string>, query: string)
    ensures var rows := Filter(allFiles, query);
            var idx := KeptIndicesFrom(allFiles, QueryTerms(query), 0);
            && |idx| == |rows|
            && (forall k, l :: 0 <= k < l < |idx| ==> idx[k] < idx[l])
            && (forall k :: 0 <= k < |rows| ==> idx[k] < |allFiles| && rows[k].file == allFiles[idx[k]])
            && (forall j :: 0 <= j < |allFiles| ==> (j in idx <==> Matches(allFiles[j], QueryTerms(query))))
  {
    ScanFollowsKeptIndices(allFiles, QueryTerms(query), 0, Undefined, false);
    var idx := KeptIndicesFrom(allFiles, QueryTerms(query), 0);
    forall j | 0 <= j < |allFiles| && j in idx
      ensures Matches(allFiles[j], QueryTerms(query))
    {
      var p := Position(idx, j);
    }
  }

  lemma FilesCons(r: Row, tail: seq<Row>)
    ensures multiset(Files([r] + tail)) == multiset{r.file} + multiset(Files(tail))
  {
    assert Files([r] + tail) == [r.file] + Files(tail);
  }

  lemma {:induction false} ScanMultiplicity(allFiles: seq<string>, terms: seq<string>, i: nat, prev: PrevName, even: bool)
    requires i <= |allFiles|
    ensures multiset(Files(ScanFrom(allFiles, terms, i, prev, even))) <= multiset(allFiles[i..])
    decreases |allFiles| - i
  {
    if i < |allFiles| {
      var rest := multiset(allFiles[i + 1..]);
      assert multiset(allFiles[i..]) == multiset{allFiles[i]} + rest by {
        assert allFiles[i..] == [allFiles[i]] + allFiles[i + 1..];
      }
      var rows := ScanFrom(allFiles, terms, i, prev, even);
      if Matches(allFiles[i], terms) {
        var name := ExtractFilename(allFiles[i]);
        var marker := NextMarker(prev, name, even);
        var tail := ScanFrom(allFiles, terms, i + 1, Name(name), marker);
        ScanMultiplicity(allFiles, terms, i + 1, Name(name), marker);
        assert rows == [Row(allFiles[i], marker)] + tail;
        FilesCons(Row(allFiles[i], marker), tail);
      } else {
        ScanMultiplicity(allFiles, terms, i + 1, prev, even);
        assert rows == ScanFrom(allFiles, terms, i + 1, prev, even);
      }
    }
  }

  /** No path appears in the filtered list more often than in the index. */
  lemma FilterNoDuplication(allFiles: seq<string>, query: string)
    ensures multiset(Files(Filter(allFiles, query))) <= multiset(allFiles)
  {
    ScanMultiplicity(allFiles, QueryTerms(query), 0, Undefined, false);
    assert allFiles[0..] == allFiles;
  }

  /** Row `b` carries the marker the shading rule gives it after row `a`. */
  predicate ShadedAfter(a: Row, b: Row) {
    b.even == NextMarker(Name(ExtractFilename(a.file)), ExtractFilename(b.file), a.even)
  }

  /** Every row after the first follows the shading rule from its predecessor. */
  predicate ShadedThroughout(rows: seq<Row>) {
    forall k :: 0 < k < |rows| ==> ShadedAfter(rows[k - 1], rows[k])
  }

  lemma ShadedCons(r: Row, tail: seq<Row>)
    requires ShadedThroughout(tail)
    requires |tail| > 0 ==> ShadedAfter(r, tail[0])
    ensures ShadedThroughout([r] + tail)
  {
    var rows := [r] + tail;
    forall k | 0 < k < |rows|
      ensures ShadedAfter(rows[k - 1], rows[k])
    {
      assert rows[k] == tail[k - 1];
      if k > 1 {
        assert rows[k - 1] == tail[k - 2];
      }
    }
  }

  lemma {:induction false} ScanMarkers(allFiles: seq<string>, terms: seq<string>, i: nat, prev: PrevName, even: bool)
    requires i <= |allFiles|
    ensures var rows := ScanFrom(allFiles, terms, i, prev, even);
            && (|rows| > 0 ==> rows[0].even == NextMarker(prev, ExtractFilename(rows[0].file), even))
            && ShadedThroughout(rows)
    decreases |allFiles| - i
  {
    if i < |allFiles| {
      var rows := ScanFrom(allFiles, terms, i, prev, even);
      if Matches(allFiles[i], terms) {
        var name := ExtractFilename(allFiles[i]);
        var marker := NextMarker(prev, name, even);
        var tail := ScanFrom(allFiles, terms, i + 1, Name(name), marker);
        assert rows == [Row(allFiles[i], marker)] + tail;
        ScanMarkers(allFiles, terms, i + 1, Name(name), marker);
        ShadedCons(Row(allFiles[i], marker), tail);
      } else {
        assert rows == ScanFrom(allFiles, terms, i + 1, prev, even);
        ScanMarkers(allFiles, terms, i + 1, prev, even);
      }
    }
  }

  /**
   * Whether the marker flips from the kept path `before` to the kept path
   * `file`: the earlier file name is non-empty (truthy) and the two names
   * share fewer than six leading characters.
   */
  predicate Flips(before: string, file: string) {
    var prevName := ExtractFilename(before);
    prevName != [] && |ExtractCommonPrefix(prevName, ExtractFilename(file))| < GroupPrefixLength
  }

  /**
   * The shading rule on the output: the first kept path is not even, and a
   * later one differs from its predecessor's marker exactly when the marker
   * flips between them.
   */
  lemma FilterShading(allFiles: seq<string>, query: string)
    ensures var rows := Filter(allFiles, query);
            && (|rows| > 0 ==> !rows[0].even)
            && (forall k :: 0 < k < |rows| ==> (rows[k].even != rows[k - 1].even <==> Flips(rows[k - 1].file, rows[k].file)))
  {
    var rows := Filter(allFiles, query);
    ScanMarkers(allFiles, QueryTerms(query), 0, Undefined, false);
    forall k | 0 < k < |rows|
      ensures ShadedAfter(rows[k - 1], rows[k])
    {
    }
  }

  /** The empty query (the default of `populateFullList`) lists the whole index in order. */
  lemma EmptyQueryKeepsAll(allFiles: seq<string>)
    ensures Files(Filter(allFiles, "")) == allFiles
  {
    var rows := Filter(allFiles, "");
    var idx := KeptIndicesFrom(allFiles, QueryTerms(""), 0);
    EmptyQueryMatchesAll(allFiles);
    FilterIsOrderedSubsequence(allFiles, "");
    StrictlyIncreasingCover(idx, |allFiles|);
    assert |Files(rows)| == |allFiles|;
    forall k | 0 <= k < |allFiles|
      ensures Files(rows)[k] == allFiles[k]
    {
      assert rows[k].file == allFiles[idx[k]];
    }
  }

  lemma EmptyQueryMatchesAll(allFiles: seq<string>)
    ensures forall j :: 0 <= j < |allFiles| ==> Matches(allFiles[j], QueryTerms(""))
  {
    EmptyQueryTerms();
    forall j | 0 <= j < |allFiles|
      ensures Matches(allFiles[j], QueryTerms(""))
    {
      EmptyTermsMatchEverything(allFiles[j], [""]);
    }
  }

  /** Strictly increasing positions below `n` that include all of `0..n` are exactly `0..n`. */
  lemma StrictlyIncreasingCover(idx: seq<nat>, n: nat)
    requires forall k, l :: 0 <= k < l < |idx| ==> idx[k] < idx[l]
    requires forall k :: 0 <= k < |idx| ==> idx[k] < n
    requires forall j :: 0 <= j < n ==> j in idx
    ensures |idx| == n
    ensures forall k :: 0 <= k < |idx| ==> idx[k] == k
  {
    forall k | 0 <= k < |idx|
      ensures idx[k] == k
    {
      IncreasingCoverAt(idx, n, k);
    }
    if |idx| > 0 {
      assert idx[|idx| - 1] == |idx| - 1;
    }
    if n > 0 {
      var p := Position(idx, n - 1);
      assert idx[p] == p;
    }
  }

  lemma {:induction false} IncreasingCoverAt(idx: seq<nat>, n: nat, k: nat)
    requires forall a, b :: 0 <= a < b < |idx| ==> idx[a] < idx[b]
    requires forall a :: 0 <= a < |idx| ==> idx[a] < n
    requires forall j :: 0 <= j < n ==> j in idx
    requires k < |idx|
    ensures idx[k] == k
  {
    if k > 0 {
      IncreasingCoverAt(idx, n, k - 1);
      assert idx[k - 1] < idx[k];
    }
    assert k <= idx[k] < n;
    var p := Position(idx, k);
    if p < k {
      IncreasingCoverAt(idx, n, p);
    }
  }

  lemma Position(idx: seq<nat>, x: nat) returns (p: nat)
    requires x in idx
    ensures p < |idx| && idx[p] == x
  {
    p :| p < |idx| && idx[p] == x;
  }
  /**
   * The query `"a b"` over `/x/ab1`, `/x/ba2`, `/x/cd3` keeps only `/x/ab1`:
   * in `/x/ba2` the `a` is found at 4 and the rest `"a2"` has no `b`.
   */
  lemma TwoTermExample()
    ensures Files(Filter(["/x/ab1", "/x/ba2", "/x/cd3"], "a b")) == ["/x/ab1"]
  {
    var all := ["/x/ab1", "/x/ba2", "/x/cd3"];
    QueryTermsExample();
    ExampleAb1();
    ExampleBa2();
    ExampleCd3();
    FilterIsOrderedSubsequence(all, "a b");
    var idx := KeptIndicesFrom(all, ["a", "b"], 0);
    assert 0 in idx;
    assert 1 !in idx && 2 !in idx;
    assert idx == [0];
  }

  lemma ExampleAb1()
    ensures Matches("/x/ab1", ["a", "b"])
  {
    assert Lower("/x/ab1") == "/x/ab1";
    assert Substring("/x/ab1", 0) == "/x/ab1";
    IndexOfChar("/x/ab1", 'a', 3);
    assert "a" == ['a'];
    assert Substring("/x/ab1", 3) == "ab1";
    assert Lower("ab1") == "ab1";
    assert OccursAt("ab1", "b", 1);
    assert ["a", "b"][1..] == ["b"] && ["b"][1..] == [];
  }

  lemma ExampleBa2()
    ensures !Matches("/x/ba2", ["a", "b"])
  {
    assert Lower("/x/ba2") == "/x/ba2";
    assert Substring("/x/ba2", 0) == "/x/ba2";
    IndexOfChar("/x/ba2", 'a', 4);
    assert "a" == ['a'];
    assert Substring("/x/ba2", 4) == "a2";
    assert Lower("a2") == "a2";
    IndexOfChar("a2", 'b', -1);
    assert "b" == ['b'];
    assert ["a", "b"][1..] == ["b"];
  }

  lemma ExampleCd3()
    ensures !Matches("/x/cd3", ["a", "b"])
  {
    assert Lower("/x/cd3") == "/x/cd3";
    assert Substring("/x/cd3", 0) == "/x/cd3";
    IndexOfChar("/x/cd3", 'a', -1);
    assert "a" == ['a'];
  }

  lemma QueryTermsExample()
    ensures QueryTerms("a b") == ["a", "b"]
  {
    assert "a b" == "a" + (" " + "b");
    SplitFromChunk("a", " " + "b", ' ', []);
    assert [] + "a" == "a";
    assert (" " + "b")[1..] == "b";
    assert SplitFrom(" b", ' ', "a") == ["a"] + SplitFrom("b", ' ', []);
    SplitFromChunk("b", [], ' ', []);
    assert "b" + [] == "b";
    assert [] + "b" == "b";
    assert SplitFrom("b", ' ', []) == ["b"];
    assert Split("a b", ' ') == ["a", "b"];
    assert Lower("a") == "a" && Lower("b") == "b";
  }

  /**
   * Kept names `alpha1.cbr`, `alpha2.cbr`, `beta1.cbr` are shaded odd, even,
   * odd: `alpha` is only five shared characters, and `beta1` shares none.
   */
  lemma ShadingExample()
    ensures var rows := Filter(["alpha1.cbr", "alpha2.cbr", "beta1.cbr"], "");
            |rows| == 3 && !rows[0].even && rows[1].even && !rows[2].even
  {
    var all := ["alpha1.cbr", "alpha2.cbr", "beta1.cbr"];
    var rows := Filter(all, "");
    EmptyQueryKeepsAll(all);
    FilterShading(all, "");
    assert rows[0].file == all[0] && rows[1].file == all[1] && rows[2].file == all[2];
    ShadingExampleFlips();
    assert rows[1].even != rows[0].even;
    assert rows[2].even != rows[1].even;
  }

  lemma ShadingExampleFlips()
    ensures Flips("alpha1.cbr", "alpha2.cbr")
    ensures Flips("alpha2.cbr", "beta1.cbr")
  {
    ShadingExampleNames();
    ShadingExampleFirstFlip();
    ShadingExampleSecondFlip();
  }

  lemma ShadingExampleNames()
    ensures ExtractFilename("alpha1.cbr") == "alpha1.cbr"
    ensures ExtractFilename("alpha2.cbr") == "alpha2.cbr"
    ensures ExtractFilename("beta1.cbr") == "beta1.cbr"
  {
    assert '/' !in "alpha1.cbr";
    assert '/' !in "alpha2.cbr";
    assert '/' !in "beta1.cbr";
  }

  lemma ShadingExampleFirstFlip()
    ensures |ExtractCommonPrefix("alpha1.cbr", "alpha2.cbr")| < GroupPrefixLength
  {
    var a1, a2 := "alpha1.cbr", "alpha2.cbr";
    CommonPrefixIsLongest(a1, a2, 6);
    assert a1[..6][5] == '1' && a2[..6][5] == '2';
  }

  lemma ShadingExampleSecondFlip()
    ensures |ExtractCommonPrefix("alpha2.cbr", "beta1.cbr")| < GroupPrefixLength
  {
    var a2, b1 := "alpha2.cbr", "beta1.cbr";
    CommonPrefixIsLongest(a2, b1, 1);
    assert a2[..1][0] == 'a' && b1[..1][0] == 'b';
  }
}
