/**
 * The page's state and its event handlers as one step function: the loaded
 * index, the rows currently listed under the search box and the reading
 * list. Key presses re-run the filter, clicks on a listed row append it,
 * clicks on a reading-list entry remove it, and the two buttons add all
 * listed paths or clear the reading list.
 */
module Session {
  import opened FilterEngine
  import opened ReadingList
  import opened IndexLoader

  /** The key code of ESC, which empties the search box. */
  const EscKeyCode: int := 27

  /** `allFiles`, the rendered rows (whose paths are `filteredList`) and `currentList`. */
  datatype State = State(allFiles: seq<string>, rows: seq<Row>, current: seq<string>)

  /**
   * The user actions the handlers wired up in `init` respond to.
   * `ReadingListClick` is a click on an entry's `data-index` span;
   * `ReadingListClickUnindexed` is a click elsewhere in the reading list (an
   * entry's wrapper, the header or the footer), where `parseInt` of the
   * missing index is NaN and `splice` treats NaN as 0.
   */
  datatype Event =
    | KeyUp(keyCode: int, boxValue: string)
    | FullListClick(row: int)
    | ReadingListClick(index: int)
    | ReadingListClickUnindexed
    | AddAllClick
    | ClearClick

  /** `onKeyUp`: the query is the box's text, or empty after ESC. */
  function KeyUpQuery(keyCode: int, boxValue: string): (q: string)
    ensures keyCode == EscKeyCode ==> q == []
    ensures keyCode != EscKeyCode ==> q == boxValue
  {
    if keyCode == EscKeyCode then "" else boxValue
  }

  /** The state after the index loaded: `populateFullList()` with the default empty query. */
  function Init(allFiles: seq<string>): (s: State)
    ensures Files(s.rows) == allFiles && s.current == []
  {
    EmptyQueryKeepsAll(allFiles);
    State(allFiles, Filter(allFiles, ""), [])
  }

  /** `init` after a successful load of the index text. */
  function Load(text: string): (s: State)
    ensures Files(s.rows) == s.allFiles == ParseIndex(text)
    ensures s.current == []
  {
    Init(ParseIndex(text))
  }

  /** One handled event. A click outside the listed rows changes nothing. */
  function Step(s: State, e: Event): (t: State)
    ensures t.allFiles == s.allFiles
    ensures !e.KeyUp? ==> t.rows == s.rows
    ensures e.KeyUp? ==> t.current == s.current
    ensures e.AddAllClick? ==> t.current == s.current + Files(s.rows)
    ensures e.ClearClick? ==> t.current == []
    ensures e.FullListClick? && 0 <= e.row < |s.rows| ==> t.current == s.current + [s.rows[e.row].file]
  {
    match e
    case KeyUp(keyCode, boxValue) => s.(rows := Filter(s.allFiles, KeyUpQuery(keyCode, boxValue)))
    case FullListClick(row) =>
      if 0 <= row < |s.rows| then s.(current := AddBook(s.current, s.rows[row].file)) else s
    case ReadingListClick(index) => s.(current := RemoveAt(s.current, index))
    case ReadingListClickUnindexed => s.(current := RemoveAt(s.current, 0))
    case AddAllClick => s.(current := AddAll(s.current, Files(s.rows)))
    case ClearClick => s.(current := Clear(s.current))
  }

  /** Every listed row and every reading-list entry is a path of the index. */
  ghost predicate Valid(s: State) {
    && (forall k :: 0 <= k < |s.rows| ==> s.rows[k].file in s.allFiles)
    && (forall k :: 0 <= k < |s.current| ==> s.current[k] in s.allFiles)
  }

  lemma InitValid(allFiles: seq<string>)
    ensures Valid(Init(allFiles))
  {
    var s := Init(allFiles);
    assert forall k :: 0 <= k < |s.rows| ==> s.rows[k].file == Files(s.rows)[k];
  }

  /** Every event keeps the rows and the reading list inside the index. */
  lemma StepValid(s: State, e: Event)
    requires Valid(s)
    ensures Valid(Step(s, e))
  {
    var t := Step(s, e);
    match e
    case KeyUp(keyCode, boxValue) =>
    case FullListClick(row) =>
    case ReadingListClick(index) =>
      RemoveAtInIndex(s.current, index, s.allFiles);
    case ReadingListClickUnindexed =>
      RemoveAtInIndex(s.current, 0, s.allFiles);
    case AddAllClick =>
      assert t.current == s.current + Files(s.rows);
      forall k | 0 <= k < |t.current|
        ensures t.current[k] in s.allFiles
      {
        if k >= |s.current| {
          assert t.current[k] == s.rows[k - |s.current|].file;
        }
      }
    case ClearClick =>
  }

  lemma RemoveAtInIndex(list: seq<string>, index: int, allFiles: seq<string>)
    requires forall k :: 0 <= k < |list| ==> list[k] in allFiles
    ensures forall k :: 0 <= k < |RemoveAt(list, index)| ==> RemoveAt(list, index)[k] in allFiles
  {
    var r := RemoveAt(list, index);
    if index >= |list| || |list| == 0 {
    } else {
      var i := if index >= 0 then index else if |list| + index >= 0 then |list| + index else 0;
      assert RemovedAt(list, i, r);
      forall k | 0 <= k < |r|
        ensures r[k] in allFiles
      {
        if k < i {
          assert r[k] == list[k];
        } else {
          assert r[k] == list[k + 1];
        }
      }
    }
  }

  /** A click on the reading list away from any index span drops the first entry. */
  lemma UnindexedClickRemovesFirst(s: State)
    ensures Step(s, ReadingListClickUnindexed).current == if |s.current| == 0 then [] else s.current[1..]
  {
    var r := Step(s, ReadingListClickUnindexed).current;
    if |s.current| > 0 {
      assert RemovedAt(s.current, 0, r);
      assert forall k :: 0 <= k < |r| ==> r[k] == s.current[1..][k];
    }
  }

  /** ESC lists the whole index again, in index order. */
  lemma EscListsEverything(s: State, boxValue: string)
    ensures Files(Step(s, KeyUp(EscKeyCode, boxValue)).rows) == s.allFiles
  {
    EmptyQueryKeepsAll(s.allFiles);
  }

  /** "Add all" then the export holds the previous entries followed by every listed path. */
  lemma AddAllExport(s: State)
    ensures Uris(Export(Step(s, AddAllClick).current).items) == s.current + Files(s.rows)
  {
    ExportRoundTrip(Step(s, AddAllClick).current);
  }
}
