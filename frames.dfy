/**
  The in-memory table that CSVConnector keeps: a pandas DataFrame reduced to
  what the connector relies on. A frame is an ordered list of entries, each a
  row label (the DataFrame index) paired with a row (column name to value).
  Everything here is a value; the connector class owns the state.
*/
module Frames {

  datatype Option<T> = None | Some(value: T)

  /** A cell value: the scalar kinds the connector accepts, plus Missing for
      pandas' NaN (a cell nobody has filled in). */
  datatype Value =
    | Str(s: string)
    | Int(i: int)
    | Float(x: real)
    | Bool(b: bool)
    | Timestamp(ticks: int)
    | Missing

  type Row = map<string, Value>

  /** One row of the frame together with its index label. */
  datatype Entry = Entry(index: int, row: Row)

  /** A DataFrame as the connector sees it: its column list and its entries in order. */
  datatype Frame = Frame(columns: seq<string>, entries: seq<Entry>)

  /** What the CSV file holds: a header and rows. The index is not written. */
  datatype Table = Table(columns: seq<string>, rows: seq<Row>)

  function Elements<T>(s: seq<T>): set<T> {
    set x | x in s
  }

  function Labels(es: seq<Entry>): seq<int> {
    seq(|es|, i requires 0 <= i < |es| => es[i].index)
  }

  function Rows(es: seq<Entry>): seq<Row> {
    seq(|es|, i requires 0 <= i < |es| => es[i].row)
  }

  /** The labels 0, 1, ..., n - 1 of a freshly numbered frame. */
  function Range(n: nat): seq<int> {
    seq(n, i requires 0 <= i < n => i)
  }

  /** Every row has exactly the frame's columns as keys. */
  ghost predicate Conforms(columns: seq<string>, es: seq<Entry>) {
    forall e :: e in es ==> e.row.Keys == Elements(columns)
  }

  ghost predicate DistinctLabels(es: seq<Entry>) {
    forall i, j :: 0 <= i < j < |es| ==> es[i].index != es[j].index
  }

  /** The same rows numbered 0..n-1: what reading a CSV file, `reset_index(drop=True)`
      and `concat(..., ignore_index=True)` produce. */
  function Number(rows: seq<Row>): (es: seq<Entry>)
    ensures Rows(es) == rows && Labels(es) == Range(|rows|)
    ensures DistinctLabels(es)
  {
    seq(|rows|, i requires 0 <= i < |rows| => Entry(i, rows[i]))
  }

  /** `reset_index(drop=True)`: keep the rows, renumber the labels. */
  function Renumber(es: seq<Entry>): (r: seq<Entry>)
    ensures Rows(r) == Rows(es) && Labels(r) == Range(|es|)
    ensures DistinctLabels(r)
  {
    var r := Number(Rows(es));
    assert forall k :: 0 <= k < |r| ==> r[k].row == es[k].row;
    r
  }

  /** Where the row labelled k sits, if anywhere (pandas' label lookup). */
  function Position(es: seq<Entry>, k: int): (r: Option<nat>)
    ensures r.Some? ==> r.value < |es| && es[r.value].index == k
    ensures r.Some? ==> forall i :: 0 <= i < r.value ==> es[i].index != k
    ensures r.None? <==> k !in Labels(es)
  {
    if es == [] then None
    else if es[0].index == k then
      assert Labels(es)[0] == k;
      Some(0)
    else
      match Position(es[1..], k)
      case None =>
        assert Labels(es) == [es[0].index] + Labels(es[1..]);
        None
      case Some(p) =>
        assert Labels(es)[p + 1] == k;
        Some(p + 1)
  }

  /** `drop(k, inplace=True)` for a label that is present. */
  function DropLabel(es: seq<Entry>, k: int): (r: seq<Entry>)
    requires k in Labels(es)
    ensures |r| == |es| - 1
    ensures forall e :: e in r ==> e in es
  {
    var p := Position(es, k).value;
    es[..p] + es[p + 1..]
  }

  /** The entries whose labels are not in `gone`, in their original order:
      the reference meaning of deleting a set of labels. */
  function Without(es: seq<Entry>, gone: set<int>): seq<Entry> {
    if es == [] then []
    else (if es[0].index in gone then [] else [es[0]]) + Without(es[1..], gone)
  }

  /** The outcome of dropping labels one at a time: the entries left, and the
      first label that was not present (the loop stops there). */
  datatype Dropped = Dropped(entries: seq<Entry>, failed: Option<int>)

  /** The drop loop of `delete`, over the labels in argument order. */
  function DropAll(es: seq<Entry>, ks: seq<int>): (d: Dropped)
    ensures d.failed.None? ==> |d.entries| == |es| - |ks|
    decreases |ks|
  {
    if ks == [] then Dropped(es, None)
    else if ks[0] !in Labels(es) then Dropped(es, Some(ks[0]))
    else DropAll(DropLabel(es, ks[0]), ks[1..])
  }

  /** The j-th label of a delete call can be dropped: it is present in the
      frame and was not already dropped earlier in the same call. */
  ghost predicate Acceptable(es: seq<Entry>, ks: seq<int>, j: int)
    requires 0 <= j < |ks|
  {
    ks[j] in Labels(es) && ks[j] !in ks[..j]
  }

  /** The position of the first label of a delete call that cannot be
      dropped, searching from position `from`; None when all of them can. */
  ghost function FirstRejected(es: seq<Entry>, ks: seq<int>, from: nat): (r: Option<nat>)
    requires from <= |ks|
    ensures r.Some? ==> from <= r.value < |ks| && !Acceptable(es, ks, r.value)
    ensures r.Some? ==> forall i :: from <= i < r.value ==> Acceptable(es, ks, i)
    ensures r.None? ==> forall i :: from <= i < |ks| ==> Acceptable(es, ks, i)
    decreases |ks| - from
  {
    if from == |ks| then None
    else if !Acceptable(es, ks, from) then Some(from)
    else FirstRejected(es, ks, from + 1)
  }

  /** pandas compares a cell with `==`; NaN equals nothing, not even NaN. */
  predicate Matches(cell: Value, value: Value) {
    value != Missing && cell == value
  }

  /** `df[df[key] == value]`: the entries whose `key` cell equals `value`,
      labels kept. */
  function Filter(es: seq<Entry>, key: string, value: Value): (r: seq<Entry>)
    requires forall e :: e in es ==> key in e.row
    ensures forall e :: e in r <==> e in es && Matches(e.row[key], value)
    ensures |r| <= |es|
  {
    if es == [] then []
    else (if Matches(es[0].row[key], value) then [es[0]] else []) + Filter(es[1..], key, value)
  }

  /** `df.loc[label, key] = value` for a label that is present: every entry
      with that label gets the new cell. */
  function SetCell(es: seq<Entry>, at: int, key: string, value: Value): (r: seq<Entry>)
    ensures |r| == |es| && Labels(r) == Labels(es)
    ensures forall i :: 0 <= i < |es| && es[i].index == at ==> r[i].row == es[i].row[key := value]
    ensures forall i :: 0 <= i < |es| && es[i].index != at ==> r[i] == es[i]
  {
    seq(|es|, i requires 0 <= i < |es| =>
      if es[i].index == at then Entry(at, es[i].row[key := value]) else es[i])
  }

  /** The row pandas appends when `.loc` assigns to a label that is absent
      ("setting with enlargement"): the given cell, NaN everywhere else. */
  function EnlargedRow(columns: seq<string>, key: string, value: Value): (row: Row)
    requires key in columns
    ensures row.Keys == Elements(columns)
    ensures row[key] == value
    ensures forall c :: c in row && c != key ==> row[c] == Missing
  {
    map c | c in columns :: if c == key then value else Missing
  }

  function Min(s: seq<int>): (m: int)
    requires s != []
    ensures m in s && forall x :: x in s ==> m <= x
  {
    if |s| == 1 then s[0]
    else
      var rest := Min(s[1..]);
      assert s == [s[0]] + s[1..];
      if s[0] <= rest then s[0] else rest
  }

  function Max(s: seq<int>): (m: int)
    requires s != []
    ensures m in s && forall x :: x in s ==> x <= m
  {
    if |s| == 1 then s[0]
    else
      var rest := Max(s[1..]);
      assert s == [s[0]] + s[1..];
      if s[0] >= rest then s[0] else rest
  }

  /** The row check of `update`: between the smallest and the largest label,
      that is, some label is at most k and some label is at least k. */
  function InRange(labels: seq<int>, k: int): (r: bool)
    requires labels != []
    ensures r <==> (exists x :: x in labels && x <= k) && (exists y :: y in labels && k <= y)
    ensures k in labels ==> r
  {
    Min(labels) <= k <= Max(labels)
  }
}
