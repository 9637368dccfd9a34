/**
  Laws of the frame operations in Frames: what dropping labels one at a time
  amounts to, the order filtering keeps, and how the label range check of
  `update` relates to label membership.
*/
module FrameLaws {
  import opened Frames

  lemma {:induction false} WithoutNothing(es: seq<Entry>, gone: set<int>)
    requires forall e :: e in es ==> e.index !in gone
    ensures Without(es, gone) == es
  {
    if es != [] {
      WithoutNothing(es[1..], gone);
      assert es == [es[0]] + es[1..];
    }
  }

  /** Deleting one set of labels and then another deletes their union. */
  lemma {:induction false} WithoutUnion(es: seq<Entry>, a: set<int>, b: set<int>)
    ensures Without(Without(es, a), b) == Without(es, a + b)
  {
    if es != [] {
      WithoutUnion(es[1..], a, b);
      var rest := Without(es[1..], a);
      if es[0].index in a {
        assert Without(es, a) == rest;
      } else {
        assert Without(es, a) == [es[0]] + rest;
        assert ([es[0]] + rest)[1..] == rest;
      }
    }
  }

  lemma {:induction false} WithoutAppend(a: seq<Entry>, b: seq<Entry>, gone: set<int>)
    ensures Without(a + b, gone) == Without(a, gone) + Without(b, gone)
  {
    if a != [] {
      assert (a + b)[0] == a[0] && (a + b)[1..] == a[1..] + b;
      WithoutAppend(a[1..], b, gone);
    } else {
      assert a + b == b;
    }
  }

  /** Deleting a label held by one entry alone cuts that entry out. */
  lemma WithoutSplice(front: seq<Entry>, x: Entry, back: seq<Entry>, gone: set<int>)
    requires forall e :: e in front ==> e.index !in gone
    requires forall e :: e in back ==> e.index !in gone
    requires x.index in gone
    ensures Without(front + [x] + back, gone) == front + back
  {
    var fx := front + [x];
    assert Without(front, gone) == front by { WithoutNothing(front, gone); }
    assert Without(back, gone) == back by { WithoutNothing(back, gone); }
    assert Without([x], gone) == [] by {
      assert [x][0] == x && [x][1..] == [];
    }
    assert Without(fx, gone) == front by {
      WithoutAppend(front, [x], gone);
    }
    assert Without(fx + back, gone) == Without(fx, gone) + Without(back, gone) by {
      WithoutAppend(fx, back, gone);
    }
  }

  /** `drop(k)` removes exactly the entry labelled k and keeps the order of
      the others. */
  lemma DropLabelIsWithout(es: seq<Entry>, k: int)
    requires DistinctLabels(es)
    requires k in Labels(es)
    ensures DropLabel(es, k) == Without(es, {k})
  {
    var p := Position(es, k).value;
    var front, back := es[..p], es[p + 1..];
    forall e | e in front ensures e.index !in {k} {
      var i :| 0 <= i < |front| && front[i] == e;
      assert es[i] == e;
    }
    forall e | e in back ensures e.index !in {k} {
      var i :| 0 <= i < |back| && back[i] == e;
      assert es[p + 1 + i] == e;
    }
    WithoutSplice(front, es[p], back, {k});
    assert es == front + [es[p]] + back;
  }

  /** After `drop(k)` the labels are the old ones minus k. */
  lemma DropLabelLabels(es: seq<Entry>, k: int)
    requires DistinctLabels(es)
    requires k in Labels(es)
    ensures forall x :: x in Labels(DropLabel(es, k)) <==> x in Labels(es) && x != k
  {
    var p := Position(es, k).value;
    var r := DropLabel(es, k);
    forall x ensures x in Labels(r) <==> x in Labels(es) && x != k {
      if x in Labels(r) {
        var i :| 0 <= i < |r| && Labels(r)[i] == x;
        var i' := if i < p then i else i + 1;
        assert r[i] == es[i'] && Labels(es)[i'] == x;
      }
      if x in Labels(es) && x != k {
        var i :| 0 <= i < |es| && Labels(es)[i] == x;
        var i' := if i < p then i else i - 1;
        assert r[i'] == es[i] && Labels(r)[i'] == x;
      }
    }
  }

  /** After `drop(k)` the labels stay distinct. */
  lemma DropLabelDistinct(es: seq<Entry>, k: int)
    requires DistinctLabels(es)
    requires k in Labels(es)
    ensures DistinctLabels(DropLabel(es, k))
  {
    var p := Position(es, k).value;
    var r := DropLabel(es, k);
    forall i, j | 0 <= i < j < |r| ensures r[i].index != r[j].index {
      var i' := if i < p then i else i + 1;
      var j' := if j < p then j else j + 1;
      assert r[i] == es[i'] && r[j] == es[j'];
    }
  }

  /** One step of the drop loop: once the first label of a call is dropped,
      the j-th label is acceptable exactly when it is acceptable for the rest
      of the call on the smaller frame. */
  lemma DropStepAcceptable(es: seq<Entry>, ks: seq<int>, j: nat)
    requires DistinctLabels(es)
    requires ks != [] && ks[0] in Labels(es)
    requires 1 <= j < |ks|
    ensures Acceptable(es, ks, j) <==> Acceptable(DropLabel(es, ks[0]), ks[1..], j - 1)
  {
    DropLabelLabels(es, ks[0]);
    assert ks[..j] == [ks[0]] + ks[1..][..j - 1];
    assert ks[j] == ks[1..][j - 1];
  }

  /** ... and the entries removed so far are those of the first j labels. */
  lemma DropStepWithout(es: seq<Entry>, ks: seq<int>, j: nat)
    requires DistinctLabels(es)
    requires ks != [] && ks[0] in Labels(es)
    requires 1 <= j <= |ks|
    ensures Without(DropLabel(es, ks[0]), Elements(ks[1..][..j - 1])) == Without(es, Elements(ks[..j]))
  {
    var k := ks[0];
    DropLabelIsWithout(es, k);
    assert ks[..j] == [k] + ks[1..][..j - 1];
    assert Elements(ks[..j]) == {k} + Elements(ks[1..][..j - 1]);
    WithoutUnion(es, {k}, Elements(ks[1..][..j - 1]));
  }

  /** When every label of a delete call is present and none repeats, the drop
      loop removes exactly those labels and keeps the other entries in their
      original order. */
  lemma {:induction false} DropAllSucceeds(es: seq<Entry>, ks: seq<int>)
    requires DistinctLabels(es)
    requires forall j :: 0 <= j < |ks| ==> Acceptable(es, ks, j)
    ensures DropAll(es, ks) == Dropped(Without(es, Elements(ks)), None)
    decreases |ks|
  {
    if ks == [] {
      WithoutNothing(es, {});
      assert Elements(ks) == {};
    } else {
      assert Acceptable(es, ks, 0);
      var es' := DropLabel(es, ks[0]);
      DropLabelDistinct(es, ks[0]);
      forall j | 0 <= j < |ks[1..]| ensures Acceptable(es', ks[1..], j) {
        assert Acceptable(es, ks, j + 1);
        DropStepAcceptable(es, ks, j + 1);
      }
      DropAllSucceeds(es', ks[1..]);
      DropStepWithout(es, ks, |ks|);
      assert ks[..|ks|] == ks && ks[1..][..|ks| - 1] == ks[1..];
    }
  }

  /** Otherwise the loop stops at the first label that is absent or repeated,
      reports that label, and keeps dropped the entries removed before it. */
  lemma {:induction false} DropAllStops(es: seq<Entry>, ks: seq<int>, j: nat)
    requires DistinctLabels(es)
    requires j < |ks| && !Acceptable(es, ks, j)
    requires forall i :: 0 <= i < j ==> Acceptable(es, ks, i)
    ensures DropAll(es, ks) == Dropped(Without(es, Elements(ks[..j])), Some(ks[j]))
    decreases |ks|
  {
    if j == 0 {
      assert ks[0] !in Labels(es);
      assert Elements(ks[..0]) == {};
      WithoutNothing(es, {});
    } else {
      assert Acceptable(es, ks, 0);
      var es' := DropLabel(es, ks[0]);
      DropLabelDistinct(es, ks[0]);
      DropStepAcceptable(es, ks, j);
      forall i | 0 <= i < j - 1 ensures Acceptable(es', ks[1..], i) {
        assert Acceptable(es, ks, i + 1);
        DropStepAcceptable(es, ks, i + 1);
      }
      DropAllStops(es', ks[1..], j - 1);
      DropStepWithout(es, ks, j);
      assert ks[1..][j - 1] == ks[j];
    }
  }

  /** Both cases of the drop loop at once, in terms of the first label that
      cannot be dropped. */
  lemma DropAllMeaning(es: seq<Entry>, ks: seq<int>)
    requires DistinctLabels(es)
    ensures FirstRejected(es, ks, 0).None? ==>
              DropAll(es, ks) == Dropped(Without(es, Elements(ks)), None)
    ensures FirstRejected(es, ks, 0).Some? ==>
              var j := FirstRejected(es, ks, 0).value;
              DropAll(es, ks) == Dropped(Without(es, Elements(ks[..j])), Some(ks[j]))
  {
    match FirstRejected(es, ks, 0)
    case None => DropAllSucceeds(es, ks);
    case Some(j) => DropAllStops(es, ks, j);
  }

  /** Filtering a concatenation filters each part: the rows come out in table order. */
  lemma {:induction false} FilterAppend(a: seq<Entry>, b: seq<Entry>, key: string, value: Value)
    requires forall e :: e in a ==> key in e.row
    requires forall e :: e in b ==> key in e.row
    ensures forall e :: e in a + b ==> key in e.row
    ensures Filter(a + b, key, value) == Filter(a, key, value) + Filter(b, key, value)
  {
    if a == [] {
      assert a + b == b;
    } else {
      var t := a[1..];
      var ab := a + b;
      assert ab[0] == a[0];
      assert ab[1..] == t + b;
      FilterAppend(t, b, key, value);
      var h := if Matches(a[0].row[key], value) then [a[0]] else [];
      calc {
        Filter(ab, key, value);
        h + Filter(t + b, key, value);
        h + (Filter(t, key, value) + Filter(b, key, value));
        (h + Filter(t, key, value)) + Filter(b, key, value);
      }
    }
  }

  /** After `df.loc[k, key] = value` on a present label, filtering on that
      cell finds the updated row (NaN excepted, which equals nothing). */
  lemma UpdateThenFilter(es: seq<Entry>, at: int, key: string, value: Value)
    requires forall e :: e in es ==> key in e.row
    requires at in Labels(es)
    requires value != Missing
    ensures forall e :: e in SetCell(es, at, key, value) ==> key in e.row
    ensures exists e :: e in Filter(SetCell(es, at, key, value), key, value) && e.index == at
  {
    var r := SetCell(es, at, key, value);
    forall e | e in r ensures key in e.row {
      var i :| 0 <= i < |r| && r[i] == e;
      assert es[i] in es;
    }
    var p := Position(es, at).value;
    assert r[p].row[key] == value && r[p] in r;
  }

  /** `.loc` on a present label keeps every row conforming and the labels distinct. */
  lemma SetCellShape(columns: seq<string>, es: seq<Entry>, at: int, key: string, value: Value)
    requires Conforms(columns, es) && DistinctLabels(es)
    requires key in columns
    ensures Conforms(columns, SetCell(es, at, key, value)) && DistinctLabels(SetCell(es, at, key, value))
  {
    var r := SetCell(es, at, key, value);
    assert key in Elements(columns);
    forall e | e in r ensures e.row.Keys == Elements(columns) {
      var i :| 0 <= i < |r| && r[i] == e;
      assert es[i] in es;
    }
    forall i, j | 0 <= i < j < |r| ensures r[i].index != r[j].index {
      assert Labels(r)[i] == Labels(es)[i] && Labels(r)[j] == Labels(es)[j];
    }
  }

  /** Setting with enlargement on an absent label does too. */
  lemma EnlargeShape(columns: seq<string>, es: seq<Entry>, at: int, key: string, value: Value)
    requires Conforms(columns, es) && DistinctLabels(es)
    requires key in columns && at !in Labels(es)
    ensures var r := es + [Entry(at, EnlargedRow(columns, key, value))];
            Conforms(columns, r) && DistinctLabels(r)
  {
    forall i | 0 <= i < |es| ensures es[i].index != at {
      assert Labels(es)[i] == es[i].index;
    }
  }

  /** On freshly numbered labels the range check of `update` is exactly
      membership. */
  lemma RangeCheckOnNumbered(n: nat, k: int)
    requires n > 0
    ensures InRange(Range(n), k) <==> k in Range(n)
  {
    assert Range(n)[0] == 0 && Range(n)[n - 1] == n - 1;
    if 0 <= k < n {
      assert Range(n)[k] == k;
    }
  }

  /** A delete that fails on its second label keeps the first one dropped,
      without renumbering, and the label it leaves missing still passes the
      range check of `update`. */
  lemma HoleAfterFailedDelete(a: Row, b: Row, c: Row)
    ensures var es := [Entry(0, a), Entry(1, b), Entry(2, c)];
            var d := DropAll(es, [1, 5]);
            && d == Dropped([Entry(0, a), Entry(2, c)], Some(5))
            && InRange(Labels(d.entries), 1)
            && 1 !in Labels(d.entries)
  {
    var es := [Entry(0, a), Entry(1, b), Entry(2, c)];
    assert Labels(es)[1] == 1;
    assert Position(es, 1) == Some(1);
    var es' := [Entry(0, a), Entry(2, c)];
    assert DropLabel(es, 1) == es';
    assert Labels(es') == [0, 2];
    assert DropAll(es', [5]) == Dropped(es', Some(5));
  }
}
