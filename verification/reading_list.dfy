/**
 * The reading list (`currentList`): books are appended one at a time or all
 * filtered paths at once, removed by position with `splice(index, 1)`,
 * cleared with `splice(0, length)`, and exported as `{items: [...]}` with one
 * `{uri, type: 'book'}` record per entry.
 */
module ReadingList {

  /** The `type` of every exported record. */
  const BookType: string := "book"

  /** One exported record; `kind` is the record's `type` field. */
  datatype ExportItem = ExportItem(uri: string, kind: string)

  /** The exported document `{items: [...]}`. */
  datatype ExportDoc = ExportDoc(items: seq<ExportItem>)

  /** `addBookToList`: `currentList.push(book)`. */
  function AddBook(list: seq<string>, book: string): (r: seq<string>)
    ensures |r| == |list| + 1
    ensures r[..|list|] == list && r[|list|] == book
  {
    list + [book]
  }

  /** `onAddAll`: `filteredList.forEach(addBookToList)`, one push per path in order. */
  function AddAll(list: seq<string>, filtered: seq<string>): (r: seq<string>)
    ensures r == list + filtered
    decreases |filtered|
  {
    if |filtered| == 0 then list
    else
      var r := AddAll(AddBook(list, filtered[0]), filtered[1..]);
      assert list + [filtered[0]] + filtered[1..] == list + filtered;
      r
  }

  /** Where `splice(start, ...)` starts: a negative start counts from the end, and both are clamped. */
  function SpliceStart(len: nat, start: int): (s: nat)
    ensures s <= len
    ensures 0 <= start <= len ==> s == start
    ensures start > len ==> s == len
    ensures start < 0 && len + start >= 0 ==> s == len + start
    ensures len + start < 0 ==> s == 0
  {
    if start < 0 then (if len + start < 0 then 0 else len + start)
    else if start < len then start else len
  }

  /**
   * `list.splice(start, deleteCount)` on the list: the remaining elements.
   * Everything before the clamped start stays, a run of at most
   * `deleteCount` elements goes (none for a count of 0 or less), and the
   * rest of the list follows unchanged.
   */
  function Splice(list: seq<string>, start: int, deleteCount: int): (r: seq<string>)
    ensures var s := SpliceStart(|list|, start);
            && s <= |r| <= |list|
            && r[..s] == list[..s]
            && r[s..] == list[|list| - (|r| - s)..]
            && (deleteCount <= 0 ==> r == list)
            && (deleteCount > 0 ==> |r| == |list| - (if deleteCount < |list| - s then deleteCount else |list| - s))
  {
    var s := SpliceStart(|list|, start);
    var d := if deleteCount < 0 then 0 else if deleteCount > |list| - s then |list| - s else deleteCount;
    list[..s] + list[s + d..]
  }

  /** `onClear`: `currentList.splice(0, currentList.length)` empties the list. */
  function Clear(list: seq<string>): (r: seq<string>)
    ensures r == []
  {
    Splice(list, 0, |list|)
  }

  /**
   * The `splice(index, 1)` of `onReadingListClick`: a position inside the
   * list (a negative one counted from the end) loses exactly that element and
   * keeps the others in order; a position at or past the end changes nothing.
   */
  function RemoveAt(list: seq<string>, index: int): (r: seq<string>)
    ensures 0 <= index < |list| ==> RemovedAt(list, index, r)
    ensures -|list| <= index < 0 ==> RemovedAt(list, |list| + index, r)
    ensures index < -|list| && |list| > 0 ==> RemovedAt(list, 0, r)
    ensures index >= |list| || |list| == 0 ==> r == list
  {
    var s := SpliceStart(|list|, index);
    if s < |list| then
      SpliceOne(list, s);
      Splice(list, index, 1)
    else
      assert list[..s] == list;
      Splice(list, index, 1)
  }

  lemma SpliceOne(list: seq<string>, i: nat)
    requires i < |list|
    ensures RemovedAt(list, i, list[..i] + list[i + 1..])
  {
  }

  /** `r` is `list` without its element at position `i`, the rest in order. */
  predicate RemovedAt(list: seq<string>, i: nat, r: seq<string>) {
    && i < |list|
    && |r| == |list| - 1
    && (forall k :: 0 <= k < i ==> r[k] == list[k])
    && (forall k :: i <= k < |r| ==> r[k] == list[k + 1])
  }

  /** Removing one element takes away exactly one copy of it. */
  lemma RemovedAtMultiset(list: seq<string>, i: nat, r: seq<string>)
    requires RemovedAt(list, i, r)
    ensures multiset(r) + multiset{list[i]} == multiset(list)
  {
    assert r == list[..i] + list[i + 1..];
    assert list == list[..i] + [list[i]] + list[i + 1..];
  }

  /** `renderCurrentReadingList`'s JSON model: one pushed record per entry. */
  function ExportItems(list: seq<string>): (items: seq<ExportItem>)
    ensures |items| == |list|
    ensures forall k :: 0 <= k < |list| ==> items[k].uri == list[k] && items[k].kind == BookType
  {
    if |list| == 0 then []
    else ExportItems(list[..|list| - 1]) + [ExportItem(list[|list| - 1], BookType)]
  }

  /** The document `renderCurrentReadingList` builds: one book record per entry, in order. */
  function Export(list: seq<string>): (doc: ExportDoc)
    ensures |doc.items| == |list|
    ensures forall k :: 0 <= k < |list| ==> doc.items[k] == ExportItem(list[k], BookType)
  {
    ExportDoc(ExportItems(list))
  }

  /** The uris of the exported records, in order. */
  function Uris(items: seq<ExportItem>): seq<string> {
    seq(|items|, k requires 0 <= k < |items| => items[k].uri)
  }

  /** The export loses nothing: its uris are the reading list. */
  lemma ExportRoundTrip(list: seq<string>)
    ensures Uris(Export(list).items) == list
  {
  }

  /** Appending a book appends one record for it to the export and leaves the others. */
  lemma ExportAddBook(list: seq<string>, book: string)
    ensures Export(AddBook(list, book)).items == Export(list).items + [ExportItem(book, BookType)]
  {
  }

  /** Adding two books and removing the first leaves the second, exported as one book record. */
  lemma SelectionExample()
    ensures RemoveAt(AddBook(AddBook([], "/a"), "/b"), 0) == ["/b"]
    ensures Export(["/b"]) == ExportDoc([ExportItem("/b", "book")])
  {
  }

  /** A cleared list exports no records. */
  lemma ClearExportsNothing(list: seq<string>)
    ensures Export(Clear(list)).items == []
  {
  }
}
