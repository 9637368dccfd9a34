/**
  CSVConnector: one CSV file mirrored by one in-memory frame. Queries read the
  frame; `register`, `delete` and `update` change it and, when they succeed,
  write the whole frame back to the file. The file is the ghost field
  `persisted`; its text format is not modelled.
*/
module Connector {
  import opened Frames
  import FrameLaws

  /** The exceptions the connector raises, and the one the CSV reader raises
      for a file without a header. */
  datatype Error =
    | FileNotFound                  // FileNotFoundError from the constructor
    | EmptyData                     // the reader finds no columns in an existing file
    | FieldMismatch                 // ValueError from register
    | EmptyTable                    // ValueError from update
    | IndexOutOfRange(index: int)   // IndexError from delete and update
    | UnknownKey(key: string)       // KeyError from update
    | ArgumentClash(name: string)   // TypeError: a keyword argument named like a parameter

  datatype Result<T> = Ok(value: T) | Err(error: Error)

  /** A parsed CSV file gives every row a cell for every header column. */
  ghost predicate WellFormedTable(t: Table) {
    Conforms(t.columns, Number(t.rows))
  }

  /** `to_csv(index=False)`: the header and the rows, without the labels. */
  function Store(f: Frame): (t: Table)
    ensures t.columns == f.columns && |t.rows| == |f.entries|
    ensures forall i :: 0 <= i < |f.entries| ==> t.rows[i] == f.entries[i].row
  {
    Table(f.columns, Rows(f.entries))
  }

  /** `read_csv`: the file's header and rows, labelled 0..n-1. */
  function Load(t: Table): (f: Frame)
    ensures Store(f) == t
    ensures Labels(f.entries) == Range(|t.rows|)
  {
    Frame(t.columns, Number(t.rows))
  }

  /** Writing a freshly numbered frame and reading it back gives the same frame. */
  lemma StoreThenLoad(f: Frame)
    requires Labels(f.entries) == Range(|f.entries|)
    ensures Load(Store(f)) == f
  {
    var g := Load(Store(f));
    assert |g.entries| == |f.entries|;
    forall i | 0 <= i < |f.entries| ensures g.entries[i] == f.entries[i] {
      assert Labels(f.entries)[i] == i;
      assert Rows(f.entries)[i] == f.entries[i].row;
    }
  }

  /** The constructor's argument rule: `initial_keys` counts only when it is
      given and non-empty. */
  predicate NoInitialKeys(initialKeys: Option<seq<string>>) {
    initialKeys.None? || initialKeys.value == []
  }

  /** What the constructor finds on disk once it has looked for the file:
      the existing file, or a new one holding only the header `initialKeys`. */
  function OpenTable(fileExists: bool, file: Table, initialKeys: Option<seq<string>>): (r: Result<Table>)
    ensures r == Err(FileNotFound) <==> !fileExists && NoInitialKeys(initialKeys)
    ensures !fileExists && !NoInitialKeys(initialKeys) ==> r == Ok(Table(initialKeys.value, []))
    ensures fileExists && file.columns != [] ==> r == Ok(file)
    ensures fileExists && file.columns == [] ==> r == Err(EmptyData)
    ensures r.Ok? ==> r.value.columns != []
  {
    if !fileExists && NoInitialKeys(initialKeys) then Err(FileNotFound)
    else
      var disk := if fileExists then file else Table(initialKeys.value, []);
      if disk.columns == [] then Err(EmptyData) else Ok(disk)
  }

  class CSVConnector {
    var columns: seq<string>
    var entries: seq<Entry>
    /** The contents of the CSV file, as last written. */
    ghost var persisted: Table

    ghost predicate Valid()
      reads this
    {
      columns != [] && Conforms(columns, entries) && DistinctLabels(entries)
    }

    /** Memory and file agree. */
    ghost predicate Synced()
      reads this
    {
      persisted == Store(Read())
    }

    /** Open on a file whose contents are `disk` (the existence check is done by Open). */
    constructor (disk: Table)
      requires disk.columns != [] && WellFormedTable(disk)
      ensures Valid() && Synced()
      ensures Read() == Load(disk) && persisted == disk
    {
      columns := disk.columns;
      entries := Number(disk.rows);
      persisted := disk;
    }

    /** `CSVConnector(csv_file, initial_keys)`: `fileExists` is what the
        existence check finds and `file` what the file holds when it exists. */
    static method Open(fileExists: bool, file: Table, initialKeys: Option<seq<string>>)
      returns (r: Result<CSVConnector>)
      requires fileExists ==> WellFormedTable(file)
      ensures OpenTable(fileExists, file, initialKeys).Err? ==>
                r == Err(OpenTable(fileExists, file, initialKeys).error)
      ensures OpenTable(fileExists, file, initialKeys).Ok? ==>
                && r.Ok? && fresh(r.value)
                && r.value.Valid() && r.value.Synced()
                && r.value.persisted == OpenTable(fileExists, file, initialKeys).value
                && r.value.Read() == Load(OpenTable(fileExists, file, initialKeys).value)
    {
      var disk := OpenTable(fileExists, file, initialKeys);
      if disk.Err? {
        return Err(disk.error);
      }
      var c := new CSVConnector(disk.value);
      r := Ok(c);
    }

    /** `read()`: the whole frame, as a value the caller cannot use to change the store. */
    function Read(): (f: Frame)
      reads this
      ensures f.columns == columns && Rows(f.entries) == Rows(entries) && Labels(f.entries) == Labels(entries)
    {
      Frame(columns, entries)
    }

    /** `get_filtered_dataframe_with_key(key, value)`: exactly the entries whose
        `key` cell equals `value`, with their labels, in table order. */
    function GetFilteredDataframeWithKey(key: string, value: Value): (f: Frame)
      reads this
      requires Valid() && key in columns
      ensures f.columns == columns && f.entries == Filter(entries, key, value)
      ensures forall e :: e in f.entries ==> e in entries && key in e.row && Matches(e.row[key], value)
      ensures forall e :: e in entries && Matches(e.row[key], value) ==> e in f.entries
    {
      assert key in Elements(columns);
      Frame(columns, Filter(entries, key, value))
    }

    /** `__write_csv`: the file now holds the frame. */
    method WriteCsv()
      modifies this`persisted
      ensures Synced()
    {
      persisted := Store(Read());
    }

    /** `__reset_index`: labels renumbered 0..n-1, rows untouched. */
    method ResetIndex()
      requires Valid()
      modifies this`entries
      ensures Valid() && entries == Renumber(old(entries))
      ensures Rows(entries) == Rows(old(entries)) && Labels(entries) == Range(|old(entries)|)
    {
      var r := Renumber(entries);
      forall e | e in r ensures e.row.Keys == Elements(columns) {
        var i :| 0 <= i < |r| && r[i] == e;
        assert Rows(r)[i] == Rows(entries)[i] && entries[i] in entries;
      }
      entries := r;
    }

    /** `register(**fields)`: append one row when the fields name exactly the
        columns. A field called `self` collides with the method's own first
        parameter, so Python refuses the call before the body runs. */
    method Register(fields: map<string, Value>) returns (r: Result<Frame>)
      requires Valid()
      modifies this
      ensures Valid() && columns == old(columns)
      ensures "self" in fields ==>
                r == Err(ArgumentClash("self")) && unchanged(this)
      ensures "self" !in fields && fields.Keys != Elements(columns) ==>
                r == Err(FieldMismatch) && unchanged(this)
      ensures "self" !in fields && fields.Keys == Elements(columns) ==>
                && Rows(entries) == Rows(old(entries)) + [fields]
                && Labels(entries) == Range(|old(entries)| + 1)
                && Synced() && r == Ok(Read())
    {
      if "self" in fields {
        return Err(ArgumentClash("self"));
      }
      if fields.Keys != Elements(columns) {
        return Err(FieldMismatch);
      }
      var grown := entries + [Entry(0, fields)];
      assert Rows(grown) == Rows(entries) + [fields];
      assert Conforms(columns, grown);
      entries := Renumber(grown);
      WriteCsv();
      r := Ok(Read());
    }

    /** `delete(*labels)`: drop the labels one at a time in argument order,
        then renumber and write. A label that is absent (or already dropped by
        this call) stops the loop with an error: the labels dropped before it
        stay dropped in memory, nothing is renumbered, the file is not written. */
    method Delete(ks: seq<int>) returns (r: Result<Frame>)
      requires Valid()
      modifies this
      ensures Valid() && columns == old(columns)
      ensures FirstRejected(old(entries), ks, 0).None? ==>
                && Rows(entries) == Rows(Without(old(entries), Elements(ks)))
                && Labels(entries) == Range(|entries|)
                && |entries| == |old(entries)| - |ks|
                && Synced() && r == Ok(Read())
      ensures FirstRejected(old(entries), ks, 0).Some? ==>
                var j := FirstRejected(old(entries), ks, 0).value;
                && entries == Without(old(entries), Elements(ks[..j]))
                && persisted == old(persisted)
                && r == Err(IndexOutOfRange(ks[j]))
    {
      ghost var before := entries;
      var failed := DropEach(ks);
      FrameLaws.DropAllMeaning(before, ks);
      if failed.Some? {
        return Err(IndexOutOfRange(failed.value));
      }
      ResetIndex();
      WriteCsv();
      r := Ok(Read());
    }

    /** The loop of `delete`: `drop(label, inplace=True)` for each label in
        turn, stopping at the first one that is not present. */
    method DropEach(ks: seq<int>) returns (failed: Option<int>)
      requires Valid()
      modifies this`entries
      ensures Valid()
      ensures entries == DropAll(old(entries), ks).entries
      ensures failed == DropAll(old(entries), ks).failed
    {
      var i := 0;
      while i < |ks|
        invariant 0 <= i <= |ks|
        invariant Valid()
        invariant DropAll(old(entries), ks) == DropAll(entries, ks[i..])
      {
        var k := ks[i];
        assert ks[i..][0] == k && ks[i..][1..] == ks[i + 1..];
        if k !in Labels(entries) {
          return Some(k);
        }
        FrameLaws.DropLabelDistinct(entries, k);
        entries := DropLabel(entries, k);
        i := i + 1;
      }
      assert ks[|ks|..] == [];
      failed := None;
    }

    /** `update(label, key, value)`: the three checks in their order (empty
        frame, label outside [min label, max label], unknown column), then
        `.loc[label, key] = value` and a write. A label inside the range that
        is not present makes pandas append a new row with that label. */
    method Update(at: int, key: string, value: Value) returns (r: Result<Frame>)
      requires Valid()
      modifies this
      ensures Valid() && columns == old(columns)
      ensures old(entries) == [] ==> r == Err(EmptyTable) && unchanged(this)
      ensures old(entries) != [] && !InRange(Labels(old(entries)), at) ==>
                r == Err(IndexOutOfRange(at)) && unchanged(this)
      ensures old(entries) != [] && InRange(Labels(old(entries)), at) && key !in columns ==>
                r == Err(UnknownKey(key)) && unchanged(this)
      ensures old(entries) != [] && InRange(Labels(old(entries)), at) && key in columns ==>
                && Synced() && r == Ok(Read())
                && (at in Labels(old(entries)) ==> entries == SetCell(old(entries), at, key, value))
                && (at !in Labels(old(entries)) ==>
                      entries == old(entries) + [Entry(at, EnlargedRow(columns, key, value))])
    {
      var labels := Labels(entries);
      if |labels| == 0 {
        return Err(EmptyTable);
      }
      if !(Min(labels) <= at && at <= Max(labels)) {
        return Err(IndexOutOfRange(at));
      }
      if key !in columns {
        return Err(UnknownKey(key));
      }
      Loc(at, key, value);
      WriteCsv();
      r := Ok(Read());
    }

    /** `.loc[at, key] = value` on a known column: the cell of a present label
        is replaced; an absent label gets a new row at the end. */
    method Loc(at: int, key: string, value: Value)
      requires Valid() && key in columns
      modifies this`entries
      ensures Valid()
      ensures at in Labels(old(entries)) ==> entries == SetCell(old(entries), at, key, value)
      ensures at !in Labels(old(entries)) ==>
                entries == old(entries) + [Entry(at, EnlargedRow(columns, key, value))]
    {
      if at in Labels(entries) {
        FrameLaws.SetCellShape(columns, entries, at, key, value);
        entries := SetCell(entries, at, key, value);
      } else {
        FrameLaws.EnlargeShape(columns, entries, at, key, value);
        entries := entries + [Entry(at, EnlargedRow(columns, key, value))];
      }
    }
  }

  /** A short session: open a missing file with columns a and b, insert a
      row, update one of its cells, delete it again. */
  method ExampleSession() {
    var store := ExampleOpen();
    ExampleRegister(store);
    ExampleUpdate(store);
    ExampleDelete(store);
    assert store.Read().entries == [];
  }

  method ExampleOpen() returns (store: CSVConnector)
    ensures fresh(store) && store.Valid() && store.columns == ["a", "b"] && store.entries == []
  {
    var session := CSVConnector.Open(false, Table([], []), Some(["a", "b"]));
    assert session.Ok?;
    store := session.value;
  }

  method ExampleRegister(store: CSVConnector)
    requires store.Valid() && store.columns == ["a", "b"] && store.entries == []
    modifies store
    ensures store.Valid() && store.columns == ["a", "b"]
    ensures store.entries == [Entry(0, map["a" := Int(1), "b" := Str("x")])]
  {
    var row := map["a" := Int(1), "b" := Str("x")];
    assert row.Keys == Elements(["a", "b"]) && "self" !in row;
    var registered := store.Register(row);
    assert registered.Ok?;
    assert Rows(store.entries)[0] == row && Labels(store.entries)[0] == 0;
  }

  method ExampleUpdate(store: CSVConnector)
    requires store.Valid() && store.columns == ["a", "b"]
    requires store.entries == [Entry(0, map["a" := Int(1), "b" := Str("x")])]
    modifies store
    ensures store.Valid() && store.columns == ["a", "b"]
    ensures store.entries == [Entry(0, map["a" := Int(1), "b" := Str("y")])]
  {
    ghost var before := store.entries;
    assert Labels(before) == [0] && Max([0]) == 0 && Min([0]) == 0;
    var updated := store.Update(0, "b", Str("y"));
    assert updated.Ok?;
    assert SetCell(before, 0, "b", Str("y"))[0] == Entry(0, map["a" := Int(1), "b" := Str("y")]);
  }

  method ExampleDelete(store: CSVConnector)
    requires store.Valid() && store.columns == ["a", "b"]
    requires store.entries == [Entry(0, map["a" := Int(1), "b" := Str("y")])]
    modifies store
    ensures store.entries == []
  {
    ghost var before := store.entries;
    assert Labels(before)[0] == 0;
    assert Acceptable(before, [0], 0);
    assert FirstRejected(before, [0], 0).None?;
    var deleted := store.Delete([0]);
    assert deleted.Ok?;
  }
}
