/** Loading the review table, turning its rows into documents, and the
    add-if-absent guard around the vector store (vector.py). */
module Indexer {
  import opened Text

  /** A cell as the CSV reader hands it over: missing (NaN) or its text. */
  datatype Cell = Missing | Value(text: string)

  /** One row of the table: its index label and its cells by column name. */
  datatype RawRow = RawRow(index: int, cells: map<string, Cell>)

  /** The table read from the CSV file: its column names and its rows in file order. */
  datatype Table = Table(columns: set<string>, rows: seq<RawRow>)

  /** A row after loading: Title and Review are text, Rating and Date as read. */
  datatype Record = Record(index: int, title: string, review: string, rating: Cell, date: Cell)

  datatype LoadError =
    | FileNotFound
      /** Both lists sorted, as the error message prints them. */
    | SchemaError(expected: seq<string>, missing: seq<string>)

  datatype Result<T> = Ok(value: T) | Err(error: LoadError)

  datatype Metadata = Metadata(rating: Cell, date: Cell, sourceRow: int)

  datatype Document = Document(pageContent: string, metadata: Metadata)

  /** What the store holds per added document. */
  datatype Entry = Entry(id: string, document: Document)

  /** The store as the guard sees it: whether its location exists, and its entries. */
  datatype StoreState = StoreState(locationExists: bool, entries: seq<Entry>)

  datatype Outcome = Skipped | Indexed(count: nat) | Failed(error: LoadError)

  datatype Step = Step(state: StoreState, outcome: Outcome)

  const RequiredColumns: set<string> := {"Title", "Review", "Rating", "Date"}

  /** The required column names in Python's string order. */
  const ColumnOrder: seq<string> := ["Date", "Rating", "Review", "Title"]

  lemma ColumnOrderIsSorted()
    ensures StrictlySorted(ColumnOrder)
    ensures forall c :: c in ColumnOrder <==> c in RequiredColumns
  {
    assert StrLess("Date", "Rating");
    assert StrLess("Rating", "Review") by {
      assert "Rating"[1..] == "ating" && "Review"[1..] == "eview";
    }
    assert StrLess("Review", "Title");
    assert StrLess("Date", "Review");
    assert StrLess("Date", "Title");
    assert StrLess("Rating", "Title");
  }

  /** The elements of `xs` that are in `keep`, in the order of `xs`. */
  function Filter(xs: seq<string>, keep: set<string>): (r: seq<string>)
    ensures forall x :: x in r <==> x in xs && x in keep
    ensures StrictlySorted(xs) ==> StrictlySorted(r)
    decreases |xs|
  {
    if |xs| == 0 then []
    else
      var rest := Filter(xs[1..], keep);
      if xs[0] in keep then
        assert StrictlySorted(xs) ==> StrictlySorted([xs[0]] + rest) by {
          if StrictlySorted(xs) {
            assert StrictlySorted(xs[1..]);
            forall i, j | 0 <= i < j < |[xs[0]] + rest|
              ensures StrLess(([xs[0]] + rest)[i], ([xs[0]] + rest)[j])
            {
              if i == 0 {
                var y := rest[j - 1];
                assert y in rest;
                assert y in xs[1..];
                var m :| 0 <= m < |xs[1..]| && xs[1..][m] == y;
                assert xs[m + 1] == y;
              }
            }
          }
        }
        [xs[0]] + rest
      else rest
  }

  /** Python's `sorted(names)` for a set of required column names. */
  function SortedNames(names: set<string>): (r: seq<string>)
    requires names <= RequiredColumns
    ensures StrictlySorted(r)
    ensures forall c :: c in r <==> c in names
  {
    ColumnOrderIsSorted();
    Filter(ColumnOrder, names)
  }

  /** The expected-columns list of the error message is the fixed order above. */
  lemma SortedRequiredColumns()
    ensures SortedNames(RequiredColumns) == ColumnOrder
  {
    ColumnOrderIsSorted();
    SortedIsUnique(SortedNames(RequiredColumns), ColumnOrder);
  }

  /** The required columns the table lacks. */
  function AbsentColumns(present: set<string>): set<string> {
    RequiredColumns - present
  }

  function CellOf(row: RawRow, column: string): Cell {
    if column in row.cells then row.cells[column] else Missing
  }

  /** `fillna("").astype(str)` on one cell: a missing cell becomes "", a
      present one keeps its text. */
  function FillText(c: Cell): (t: string)
    ensures c.Missing? ==> t == ""
    ensures c.Value? ==> t == c.text
  {
    match c
    case Missing => ""
    case Value(t) => t
  }

  /** One row after the fills: missing Title and Review cells become "". */
  function LoadRecord(row: RawRow): (rec: Record)
    ensures rec.index == row.index
    ensures rec.title == FillText(CellOf(row, "Title")) && rec.review == FillText(CellOf(row, "Review"))
    ensures rec.rating == CellOf(row, "Rating") && rec.date == CellOf(row, "Date")
  {
    Record(row.index, FillText(CellOf(row, "Title")), FillText(CellOf(row, "Review")),
           CellOf(row, "Rating"), CellOf(row, "Date"))
  }

  /** `_load_dataframe`: fails when the file is absent, then when a required
      column is absent (naming the absent ones, sorted); otherwise gives one
      record per row, in row order, with missing Title and Review cells as "". */
  function LoadDataFrame(csvExists: bool, table: Table): (r: Result<seq<Record>>)
    ensures !csvExists ==> r == Err(FileNotFound)
    ensures csvExists ==> (r.Err? <==> !(RequiredColumns <= table.columns))
    ensures csvExists && r.Err? ==>
      r.error.SchemaError?
      && StrictlySorted(r.error.expected)
      && (forall c :: c in r.error.expected <==> c in RequiredColumns)
      && StrictlySorted(r.error.missing)
      && forall c :: c in r.error.missing <==> c in RequiredColumns && c !in table.columns
    ensures r.Ok? ==>
      RequiredColumns <= table.columns && |r.value| == |table.rows|
      && forall k :: 0 <= k < |table.rows| ==> r.value[k] == LoadRecord(table.rows[k])
  {
    if !csvExists then Err(FileNotFound)
    else
      var missing := AbsentColumns(table.columns);
      if missing != {} then
        Err(SchemaError(SortedNames(RequiredColumns), SortedNames(missing)))
      else
        assert RequiredColumns <= table.columns by {
          forall c | c in RequiredColumns ensures c in table.columns {
            assert c !in missing;
          }
        }
        Ok(seq(|table.rows|, k requires 0 <= k < |table.rows| => LoadRecord(table.rows[k])))
  }

  /** The page content of a row: Title and Review joined by a space, stripped. */
  function Content(title: string, review: string): string {
    Strip(title + " " + review)
  }

  /** The document made of one record: its content and its metadata. */
  function DocumentOf(rec: Record): Document {
    Document(Content(rec.title, rec.review), Metadata(rec.rating, rec.date, rec.index))
  }

  /** The id of one record's document: the decimal rendering of its index label. */
  function IdOf(rec: Record): string {
    IntToString(rec.index)
  }

  /** `_build_documents`: one document and one id per record, both in record order. */
  method BuildDocuments(records: seq<Record>) returns (documents: seq<Document>, ids: seq<string>)
    ensures |documents| == |records| && |ids| == |records|
    ensures forall k :: 0 <= k < |records| ==> documents[k] == DocumentOf(records[k]) && ids[k] == IdOf(records[k])
  {
    documents, ids := [], [];
    for i := 0 to |records|
      invariant |documents| == i && |ids| == i
      invariant forall k :: 0 <= k < i ==> documents[k] == DocumentOf(records[k]) && ids[k] == IdOf(records[k])
    {
      var row := records[i];
      var content := Strip(row.title + " " + row.review);
      var metadata := Metadata(row.rating, row.date, row.index);
      documents := documents + [Document(content, metadata)];
      ids := ids + [IntToString(row.index)];
    }
  }

  /** Two empty fields give empty content. */
  lemma EmptyFieldsGiveEmptyContent()
    ensures Content("", "") == ""
  {
    assert AllSpace(" ");
    StripPadded("", "", " ");
    assert "" + "" + " " == "" + " " + "";
  }

  /** Fields without whitespace at their ends are joined by exactly one space;
      an empty title leaves just the review. */
  lemma ContentOfTrimmedFields(title: string, review: string)
    requires NoEdgeSpace(title) && NoEdgeSpace(review)
    ensures title != "" && review != "" ==> Content(title, review) == title + " " + review
    ensures title == "" ==> Content(title, review) == review
    ensures review == "" ==> Content(title, review) == title
  {
    var joined := title + " " + review;
    if title != "" && review != "" {
      assert joined[0] == title[0] && joined[|joined| - 1] == review[|review| - 1];
      StripPadded("", joined, "");
      assert "" + joined + "" == joined;
    } else if title == "" {
      assert joined == " " + review + "";
      StripPadded(" ", review, "");
    } else {
      assert joined == "" + title + " ";
      StripPadded("", title, " ");
    }
  }

  /** Records with pairwise distinct index labels get pairwise distinct ids. */
  lemma DistinctIndexesGiveDistinctIds(records: seq<Record>)
    requires forall i, j :: 0 <= i < j < |records| ==> records[i].index != records[j].index
    ensures forall i, j :: 0 <= i < j < |records| ==> IdOf(records[i]) != IdOf(records[j])
  {
    forall i, j | 0 <= i < j < |records| ensures IdOf(records[i]) != IdOf(records[j]) {
      IntToStringInjective(records[i].index, records[j].index);
    }
  }

  /** `_should_add_documents`: add only when the store location does not exist yet. */
  function ShouldAddDocuments(locationExists: bool): bool {
    !locationExists
  }

  function Entries(records: seq<Record>): (es: seq<Entry>)
    ensures |es| == |records|
  {
    seq(|records|, k requires 0 <= k < |records| => Entry(IdOf(records[k]), DocumentOf(records[k])))
  }

  /** One run of the module-level guard: load, build, add and persist when the
      location is absent; otherwise leave the store alone. A load error stops
      the run before anything is added. */
  function IndexStep(s: StoreState, csvExists: bool, table: Table): Step {
    if !ShouldAddDocuments(s.locationExists) then Step(s, Skipped)
    else
      match LoadDataFrame(csvExists, table)
      case Err(e) => Step(s, Failed(e))
      case Ok(records) => Step(StoreState(true, s.entries + Entries(records)), Indexed(|records|))
  }

  /** A store whose location does not exist holds no entries. */
  predicate Consistent(s: StoreState) {
    s.locationExists || s.entries == []
  }

  /** A run keeps a consistent store consistent. */
  lemma IndexStepKeepsConsistent(s: StoreState, csvExists: bool, table: Table)
    requires Consistent(s)
    ensures Consistent(IndexStep(s, csvExists, table).state)
  {
  }

  /** A store opened at a location that already exists is never indexed: every
      run skips and leaves it as it is, an empty one included. */
  lemma PresentLocationNeverIndexes(s: StoreState, csvExists: bool, table: Table)
    requires s.locationExists
    ensures IndexStep(s, csvExists, table) == Step(s, Skipped)
  {
  }

  /** Once a run has not failed, the location exists, and any later run is a
      no-op whatever file it would read. */
  lemma SecondRunIsNoOp(s: StoreState, csv1: bool, t1: Table, csv2: bool, t2: Table)
    requires !IndexStep(s, csv1, t1).outcome.Failed?
    ensures var first := IndexStep(s, csv1, t1);
      first.state.locationExists
      && IndexStep(first.state, csv2, t2) == Step(first.state, Skipped)
  {
  }

  /** Indexing a fresh store holds one entry per row, in row order, each with
      the row's decimal id and the row's metadata; ids are distinct when the
      row labels are. */
  lemma FreshIndexMatchesRows(csvExists: bool, table: Table)
    requires IndexStep(StoreState(false, []), csvExists, table).outcome.Indexed?
    ensures var es := IndexStep(StoreState(false, []), csvExists, table).state.entries;
      |es| == |table.rows|
      && (forall k :: 0 <= k < |es| ==>
            es[k].id == IntToString(table.rows[k].index)
            && es[k].document.pageContent
               == Content(FillText(CellOf(table.rows[k], "Title")), FillText(CellOf(table.rows[k], "Review")))
            && es[k].document.metadata.sourceRow == table.rows[k].index
            && es[k].document.metadata.rating == CellOf(table.rows[k], "Rating")
            && es[k].document.metadata.date == CellOf(table.rows[k], "Date"))
  {
    var loaded := LoadDataFrame(csvExists, table);
    assert loaded.Ok?;
    var records := loaded.value;
    var es := Entries(records);
    assert IndexStep(StoreState(false, []), csvExists, table).state.entries == [] + es;
    assert [] + es == es;
    forall k | 0 <= k < |es|
      ensures es[k].id == IntToString(table.rows[k].index)
      ensures es[k].document.pageContent
              == Content(FillText(CellOf(table.rows[k], "Title")), FillText(CellOf(table.rows[k], "Review")))
      ensures es[k].document.metadata == Metadata(CellOf(table.rows[k], "Rating"), CellOf(table.rows[k], "Date"), table.rows[k].index)
    {
      assert records[k] == LoadRecord(table.rows[k]);
    }
  }

  /** Rows with pairwise distinct index labels give a fresh store pairwise distinct ids. */
  lemma FreshIndexIdsDistinct(csvExists: bool, table: Table)
    requires IndexStep(StoreState(false, []), csvExists, table).outcome.Indexed?
    requires forall i, j :: 0 <= i < j < |table.rows| ==> table.rows[i].index != table.rows[j].index
    ensures var es := IndexStep(StoreState(false, []), csvExists, table).state.entries;
      forall i, j :: 0 <= i < j < |es| ==> es[i].id != es[j].id
  {
    FreshIndexMatchesRows(csvExists, table);
    var es := IndexStep(StoreState(false, []), csvExists, table).state.entries;
    forall i, j | 0 <= i < j < |es| ensures es[i].id != es[j].id {
      IntToStringInjective(table.rows[i].index, table.rows[j].index);
    }
  }

  /** The vector store, modelled only by its location flag and its entries. */
  class VectorStore {
    var locationExists: bool
    var entries: seq<Entry>

    /** Opens the store at a location that may or may not exist yet; nothing
        is stored where no location exists. */
    constructor (locationExists: bool, entries: seq<Entry>)
      requires Consistent(StoreState(locationExists, entries))
      ensures this.locationExists == locationExists && this.entries == entries
    {
      this.locationExists := locationExists;
      this.entries := entries;
    }

    function State(): StoreState
      reads this
    {
      StoreState(locationExists, entries)
    }

    /** `add_documents(documents=..., ids=...)`: appends one entry per document, in order. */
    method AddDocuments(documents: seq<Document>, ids: seq<string>)
      requires |documents| == |ids|
      modifies this
      ensures entries == old(entries) + seq(|ids|, k requires 0 <= k < |ids| => Entry(ids[k], documents[k]))
      ensures locationExists == old(locationExists)
    {
      entries := entries + seq(|ids|, k requires 0 <= k < |ids| => Entry(ids[k], documents[k]));
    }

    /** `persist()`: writes the store to its location, which exists afterwards. */
    method Persist()
      modifies this
      ensures locationExists && entries == old(entries)
    {
      locationExists := true;
    }
  }

  /** The module-level guard: add and persist the table's documents only when
      the store location does not exist. */
  method IndexIfAbsent(store: VectorStore, csvExists: bool, table: Table) returns (outcome: Outcome)
    modifies store
    ensures Step(store.State(), outcome) == IndexStep(old(store.State()), csvExists, table)
    ensures Consistent(old(store.State())) ==> Consistent(store.State())
  {
    if ShouldAddDocuments(store.locationExists) {
      var loaded := LoadDataFrame(csvExists, table);
      if loaded.Err? {
        return Failed(loaded.error);
      }
      var documents, ids := BuildDocuments(loaded.value);
      store.AddDocuments(documents, ids);
      store.Persist();
      assert seq(|ids|, k requires 0 <= k < |ids| => Entry(ids[k], documents[k])) == Entries(loaded.value);
      outcome := Indexed(|documents|);
    } else {
      outcome := Skipped;
    }
  }

  /** Starting the program twice against the same store: once the first run
      has not failed, the second adds nothing. */
  method RunTwice(store: VectorStore, csv1: bool, t1: Table, csv2: bool, t2: Table)
    returns (first: Outcome, second: Outcome)
    modifies store
    ensures !first.Failed? ==>
      second == Skipped && store.State() == IndexStep(old(store.State()), csv1, t1).state
  {
    first := IndexIfAbsent(store, csv1, t1);
    second := IndexIfAbsent(store, csv2, t2);
  }
}
