# CSVConnector, modelled in Dafny

`CSVConnector` keeps one CSV file mirrored in memory as a pandas DataFrame.
It offers two queries, `read` and `get_filtered_dataframe_with_key`. It also
offers three mutations, `register`, `delete` and `update`, and each one
rewrites the whole file when it succeeds. This project models the rules the
connector itself adds on top of pandas:

- the exact column-set check of `register`;
- the label-by-label drop of `delete` followed by renumbering;
- the ordered guards and the min/max range check of `update`;
- the constructor's existence and initial-keys rule;
- the discipline of writing the file only after a success.

Files:

- `frames.dfy` (module `Frames`): the DataFrame as a value. A `Frame` is a
  column list plus a sequence of `Entry(index, row)`, where `index` is the row
  label and `row` maps column names to a `Value`. This module also holds the
  pandas operations the connector relies on: label lookup (`Position`),
  `drop` (`DropLabel`), the drop loop (`DropAll`), `reset_index`
  (`Renumber`), boolean filtering (`Filter`), `.loc` assignment (`SetCell`,
  `EnlargedRow`) and `min`/`max`.
- `frame_laws.dfy` (module `FrameLaws`): what those operations mean. The
  drop loop is characterised completely against a reference definition
  (`Without`, the entries whose labels are not deleted, in order). Filtering
  preserves table order. An update is visible to a later filter. The
  `update` range check equals membership on freshly numbered labels, and a
  concrete failed delete leaves a gap that the range check still admits.
- `connector.dfy` (module `Connector`): the class `CSVConnector` with fields
  `columns`, `entries` and the ghost field `persisted`, which stands for the
  file contents. It also holds the constructor rule (`OpenTable`, `Open`),
  the file format seen abstractly (`Store`, `Load`), and a short example
  session that opens, registers, updates and deletes.

Each mutating method states its whole new state. On success that includes
`Synced()`, meaning the file holds exactly the frame's header and rows. On
failure, `persisted` is unchanged.

Behaviour of the code worth knowing:

- A failed `delete` keeps in memory the labels it dropped before the bad one.
  It does not renumber the labels and does not write the file. Labels are
  therefore not always contiguous.
- `register` renumbers all labels to 0..n (`concat(..., ignore_index=True)`),
  not just the new one, so the new row's label equals the old row count only
  while the labels are 0..n-1.
- `register` takes its fields as keyword arguments next to `self`, so a
  field named `self` makes Python raise TypeError before the body runs: a
  table with a column named `self` can never get a row.
- `update` with a label that lies in [min label, max label] but is absent
  passes the checks. `.loc` then appends a new row with that label; this is
  pandas' setting with enlargement, and its other cells are NaN.
- For a column that does not exist, filtering relies on pandas' own
  KeyError; the connector defines no error of its own for it.

## Model

| member | source | states |
|---|---|---|
| Connector.OpenTable | connector.py:31-39 | fails with FileNotFound exactly when the file is missing and `initial_keys` is None or empty; a missing file with keys yields a header-only table of those keys; an existing file is used as it is (initial keys ignored), or fails as EmptyData when it has no header |
| Connector.CSVConnector.Open | connector.py:11-39 | returns the error OpenTable gives, or a fresh, valid, synchronised store whose frame is the file's contents read back and whose persisted file is that table |
| Connector.CSVConnector.constructor | connector.py:39 | the frame is the file's header and rows labelled 0..n-1, the rows conform to the columns, and memory and file agree |
| Connector.Load | connector.py:41-43 | reading a file gives back exactly its header and rows (storing the loaded frame returns the file) with labels 0..n-1 |
| Connector.Store | connector.py:47 | the file receives the frame's columns and, in order, every entry's row, one row per entry, without its label |
| Connector.StoreThenLoad | connector.py:45-48 | writing a frame whose labels are 0..n-1 and reading it back yields the same frame |
| Connector.CSVConnector.WriteCsv | connector.py:45-48 | afterwards the persisted file holds the frame's header and rows (labels are not written) |
| Frames.Renumber | connector.py:50-53 | renumbering keeps every row in place and makes the labels 0..n-1, hence distinct |
| Connector.CSVConnector.ResetIndex | connector.py:50-53 | the rows are unchanged and the labels become 0..n-1; columns and file are untouched |
| Connector.CSVConnector.Read | connector.py:55-63 | returns the current columns, rows and labels, and changes nothing |
| Frames.Filter | connector.py:80 | an entry is in the result exactly when it is in the frame and its `key` cell equals the value (NaN equals nothing) |
| FrameLaws.FilterAppend | connector.py:80 | filtering distributes over concatenation, so matching rows come out in table order |
| Connector.CSVConnector.GetFilteredDataframeWithKey | connector.py:65-80 | for a known column, the result holds exactly the entries whose `key` cell matches, with their labels, in table order (it is `Filter`, which FilterAppend shows keeps order), and the same columns |
| Frames.Number | connector.py:125 | the rows numbered 0..n-1: the rows are kept, the labels are 0..n-1 and distinct |
| Connector.CSVConnector.Register | connector.py:82-127 | a field named `self` clashes with the method's own parameter and fails with ArgumentClash, nothing changed; if the supplied field names differ from the column set, it fails with FieldMismatch and nothing changes, file included; otherwise exactly one row equal to the fields is appended after the unchanged old rows, all labels become 0..n, columns stay, and the file is rewritten |
| Frames.Position | connector.py:145 | finds the first entry carrying a label, and reports absence exactly when the label is not in the index |
| Frames.DropLabel | connector.py:145 | dropping a present label removes one entry and keeps only entries that were there |
| FrameLaws.DropLabelIsWithout | connector.py:145 | dropping label k equals removing the entries labelled k, the others keeping their order |
| FrameLaws.DropLabelLabels | connector.py:145 | after dropping k, the labels are the old labels minus k |
| FrameLaws.DropLabelDistinct | connector.py:145 | dropping keeps the labels distinct |
| Frames.DropAll | connector.py:144-145 | when every drop succeeds, exactly as many entries are removed as labels were given |
| Frames.FirstRejected | connector.py:144-149 | finds the first label of the call that is absent or repeated, with all earlier ones droppable; None means every label is droppable |
| FrameLaws.DropStepAcceptable | connector.py:144-145 | after the first label is dropped, the later labels are droppable from the smaller frame exactly when they were droppable from the original call |
| FrameLaws.DropAllSucceeds | connector.py:143-147 | when every label is present and none repeats, the drop loop removes exactly those labels and keeps the other entries in their original order |
| FrameLaws.DropAllStops | connector.py:144-149 | otherwise the loop reports the first absent or repeated label and keeps dropped the entries of the labels before it |
| FrameLaws.DropAllMeaning | connector.py:143-149 | both outcomes of the drop loop, in terms of the first rejected label |
| Connector.CSVConnector.DropEach | connector.py:143-145 | the loop leaves exactly the entries and the failure DropAll describes, and keeps the store valid |
| Connector.CSVConnector.Delete | connector.py:129-150 | success: rows are the old rows minus the deleted labels, in order, labels are 0..n-1, the row count drops by the number of labels, and the file is rewritten. Failure at the first absent or repeated label: that label is reported, earlier labels stay dropped in memory, nothing is renumbered, and the file is not rewritten |
| FrameLaws.HoleAfterFailedDelete | connector.py:144-181 | deleting labels 1 and 5 from labels 0,1,2 fails at 5 after dropping 1; label 1 is then absent yet passes the range check of update |
| Frames.Min | connector.py:181 | the smallest label: it is one of the labels and no label is smaller |
| Frames.Max | connector.py:181 | the largest label: it is one of the labels and no label is larger |
| Frames.InRange | connector.py:181 | the range check of `update` passes exactly when some label is at most the given label and some label is at least it; every present label passes |
| FrameLaws.RangeCheckOnNumbered | connector.py:181 | on labels 0..n-1 the min/max range check holds exactly for present labels |
| Frames.SetCell | connector.py:186 | on a present label, only the cell at (label, key) changes; the row count, labels and every other entry are unchanged |
| Frames.EnlargedRow | connector.py:186 | the row appended for an absent label has every column, the given cell, and NaN elsewhere |
| FrameLaws.SetCellShape | connector.py:186 | setting a cell of a known column keeps rows conforming and labels distinct |
| FrameLaws.EnlargeShape | connector.py:186 | appending the enlarged row for an absent label keeps rows conforming and labels distinct |
| Connector.CSVConnector.Loc | connector.py:186 | on a present label the frame becomes SetCell of it; on an absent label one enlarged row is appended; the store stays valid |
| FrameLaws.UpdateThenFilter | connector.py:186 | after setting (label, key) to a non-NaN value, filtering on key and value finds an entry with that label |
| Connector.CSVConnector.Update | connector.py:152-188 | checks in order: an empty frame fails with EmptyTable, a label outside [min, max] fails with IndexOutOfRange, an unknown column fails with UnknownKey, and every failure changes nothing; otherwise the cell is set (or a row appended for an absent label in range) and the file is rewritten |

## Left out

- CSV text: the header and row syntax, pandas' type inference on reading
  (integers turned into floats, object columns of an empty frame) and the
  `mode` argument of `__write_csv`, which is only ever "w". The file is the
  abstract `Table` of a header and rows.
- The file system: whether the file exists is a parameter of `Open`, and so
  are its contents; creating the header-only file is the table `OpenTable`
  returns. Write failures such as a full disk or a denied permission are not
  modelled.
- Connector.CSVConnector.Open: requires that an existing file's rows have a
  cell for every header column. The CSV parser guarantees this (it fills
  missing cells with NaN), and the parser is not part of this model.
- Connector.CSVConnector.GetFilteredDataframeWithKey: requires `key` to be a
  column; pandas raises KeyError otherwise, and that is library behaviour.
- Value semantics: `Value` has structural equality only. Float and datetime
  arithmetic are left out, and so is pandas' cross-type `==` (1 == 1.0 ==
  True). NaN is the variant `Missing`, which matches nothing in a filter.
- Duplicate column names: the constructor reads the file back, and pandas
  renames a repeated header (`a`, `a.1`, ...), so `register` then needs a
  field for every renamed column. The model keeps the columns as given:
  `Open` yields `["a", "a"]` and `Register` accepts `{"a"}`.
- The copies returned by `read`, the filter and the mutations are values
  here, so aliasing cannot arise. Concurrency and access by several
  processes are not modelled; the code has neither.
