/**
 What a run of upserts does to a list of rows, and when it leaves the rows as they were: exactly when the
 last write to each key repeats what its row held.
 */
module RowWrites {
  import opened Wrappers
  import opened Texts
  import opened JobProtocol
  import opened JobRecordEquality

  function UpsertAll<T>(rows: seq<T>, key: T -> Text, ws: seq<RowWrite<T>>): seq<T> {
    if ws == [] then rows
    else Upsert(UpsertAll(rows, key, ws[..|ws| - 1]), key, ws[|ws| - 1])
  }

  /** The newest write to a key. */
  function LastWrite<T>(ws: seq<RowWrite<T>>, k: Text): Option<RowWrite<T>> {
    if ws == [] then None
    else if ws[|ws| - 1].key == k then Some(ws[|ws| - 1])
    else LastWrite(ws[..|ws| - 1], k)
  }

  /** Writes keep the key and the id of a row, create rows of their own key, and overwrite each other. */
  ghost predicate Overwriting<T(!new)>(ws: seq<RowWrite<T>>, key: T -> Text, id: T -> Text) {
    && (forall i | 0 <= i < |ws| :: key(ws[i].create) == ws[i].key)
    && (forall i, x: T | 0 <= i < |ws| :: key(ws[i].update(x)) == key(x) && id(ws[i].update(x)) == id(x))
    && (forall i, j, x: T | 0 <= i < |ws| && 0 <= j < |ws| :: ws[j].update(ws[i].update(x)) == ws[j].update(x))
  }

  // ---------------------------------------------------------------- one upsert

  /** An upsert replaces the first row of its key, or appends. */
  lemma {:induction false} UpsertAt<T>(rows: seq<T>, key: T -> Text, w: RowWrite<T>)
    ensures
      var after := Upsert(rows, key, w);
      && |rows| <= |after| <= |rows| + 1
      && (|after| == |rows| <==> InUse(rows, key, w.key))
      && (|after| > |rows| ==> after == rows + [w.create])
      && (forall i | 0 <= i < |rows| :: after[i] == rows[i] || (key(rows[i]) == w.key && after[i] == w.update(rows[i])))
  {
    if rows == [] || key(rows[0]) == w.key {
      if rows != [] {
        assert key(rows[0]) == w.key;
      }
    } else {
      var tail := Upsert(rows[1..], key, w);
      UpsertAt(rows[1..], key, w);
      if InUse(rows[1..], key, w.key) {
        var i :| 0 <= i < |rows[1..]| && key(rows[1..][i]) == w.key;
        assert key(rows[i + 1]) == w.key;
      }
      if InUse(rows, key, w.key) {
        var i :| 0 <= i < |rows| && key(rows[i]) == w.key;
        assert key(rows[1..][i - 1]) == w.key;
      }
      assert rows == [rows[0]] + rows[1..];
      if |tail| > |rows[1..]| {
        assert [rows[0]] + (rows[1..] + [w.create]) == rows + [w.create];
      }
    }
  }

  /** With one row per key, the row of the key is the one that changes. */
  lemma {:induction false} UpsertHits<T>(rows: seq<T>, key: T -> Text, w: RowWrite<T>, i: nat)
    requires DistinctKeys(rows, key) && i < |rows| && key(rows[i]) == w.key
    ensures |Upsert(rows, key, w)| == |rows| && Upsert(rows, key, w)[i] == w.update(rows[i])
  {
    if i > 0 {
      assert key(rows[0]) != key(rows[i]);
      assert key(rows[1..][i - 1]) == w.key;
      UpsertHits(rows[1..], key, w, i - 1);
    }
  }

  // ---------------------------------------------------------------- a run of upserts

  /** What row `i` has become: as it was, or as the newest write to its key made it. */
  ghost predicate RowFollows<T>(rows: seq<T>, key: T -> Text, ws: seq<RowWrite<T>>, i: nat)
    requires i < |rows| && i < |UpsertAll(rows, key, ws)|
  {
    UpsertAll(rows, key, ws)[i] ==
      match LastWrite(ws, key(rows[i]))
      case None => rows[i]
      case Some(w) => w.update(rows[i])
  }

  lemma KeysKept<T(!new)>(rows: seq<T>, key: T -> Text, id: T -> Text, w: RowWrite<T>)
    requires forall x: T :: key(w.update(x)) == key(x) && id(w.update(x)) == id(x)
    ensures
      var after := Upsert(rows, key, w);
      && |rows| <= |after|
      && forall i | 0 <= i < |rows| :: key(after[i]) == key(rows[i]) && id(after[i]) == id(rows[i])
  {
    UpsertAt(rows, key, w);
  }

  lemma OverwritingInit<T(!new)>(ws: seq<RowWrite<T>>, key: T -> Text, id: T -> Text)
    requires Overwriting(ws, key, id) && ws != []
    ensures Overwriting(ws[..|ws| - 1], key, id)
  {
  }

  /** Rows stay in place with their keys and ids. */
  lemma {:induction false} RowsStay<T(!new)>(rows: seq<T>, key: T -> Text, id: T -> Text, ws: seq<RowWrite<T>>)
    requires Overwriting(ws, key, id)
    ensures
      var after := UpsertAll(rows, key, ws);
      && |rows| <= |after|
      && forall i | 0 <= i < |rows| :: key(after[i]) == key(rows[i]) && id(after[i]) == id(rows[i])
  {
    if ws != [] {
      OverwritingInit(ws, key, id);
      RowsStay(rows, key, id, ws[..|ws| - 1]);
      KeysKept(UpsertAll(rows, key, ws[..|ws| - 1]), key, id, ws[|ws| - 1]);
    }
  }

  lemma DistinctPrefix<T>(rows: seq<T>, longer: seq<T>, key: T -> Text)
    requires |rows| <= |longer| && forall i | 0 <= i < |rows| :: key(longer[i]) == key(rows[i])
    requires DistinctKeys(longer, key)
    ensures DistinctKeys(rows, key)
  {
  }

  /** Every row that was there is as the newest write to its key made it. */
  lemma {:induction false} RowFollowsAll<T(!new)>(
    rows: seq<T>, key: T -> Text, id: T -> Text, ws: seq<RowWrite<T>>, i: nat)
    requires Overwriting(ws, key, id) && DistinctKeys(UpsertAll(rows, key, ws), key)
    requires i < |rows|
    ensures i < |UpsertAll(rows, key, ws)| && RowFollows(rows, key, ws, i)
  {
    RowsStay(rows, key, id, ws);
    if ws != [] {
      var last := |ws| - 1;
      var before := UpsertAll(rows, key, ws[..last]);
      OverwritingInit(ws, key, id);
      RowsStay(rows, key, id, ws[..last]);
      KeysKept(before, key, id, ws[last]);
      DistinctPrefix(before, UpsertAll(rows, key, ws), key);
      RowFollowsAll(rows, key, id, ws[..last], i);
      UpsertAt(before, key, ws[last]);
      if ws[last].key == key(rows[i]) {
        UpsertHits(before, key, ws[last], i);
        NewestOverwrites(ws, key, id, rows[i]);
      }
    }
  }

  lemma {:induction false} LastWriteIsOne<T>(ws: seq<RowWrite<T>>, k: Text) returns (i: nat)
    requires LastWrite(ws, k).Some?
    ensures i < |ws| && LastWrite(ws, k) == Some(ws[i]) && ws[i].key == k
  {
    if ws[|ws| - 1].key == k {
      i := |ws| - 1;
    } else {
      i := LastWriteIsOne(ws[..|ws| - 1], k);
    }
  }

  /** The newest write hides the one before it. */
  lemma NewestOverwrites<T(!new)>(ws: seq<RowWrite<T>>, key: T -> Text, id: T -> Text, x: T)
    requires Overwriting(ws, key, id) && ws != []
    ensures
      var earlier := LastWrite(ws[..|ws| - 1], key(x));
      earlier.Some? ==> ws[|ws| - 1].update(earlier.value.update(x)) == ws[|ws| - 1].update(x)
  {
    if LastWrite(ws[..|ws| - 1], key(x)).Some? {
      var i := LastWriteIsOne(ws[..|ws| - 1], key(x));
      assert ws[..|ws| - 1][i] == ws[i];
    }
  }

  lemma KeyStaysInUse<T(!new)>(rows: seq<T>, key: T -> Text, id: T -> Text, ws: seq<RowWrite<T>>, k: Text)
    requires Overwriting(ws, key, id)
    ensures InUse(rows, key, k) ==> InUse(UpsertAll(rows, key, ws), key, k)
  {
    RowsStay(rows, key, id, ws);
    if InUse(rows, key, k) {
      var i :| 0 <= i < |rows| && key(rows[i]) == k;
      assert key(UpsertAll(rows, key, ws)[i]) == k;
    }
  }

  /** The rows beyond the old ones have new keys, and these were written. */
  lemma {:induction false} NewRowsWritten<T(!new)>(
    rows: seq<T>, key: T -> Text, id: T -> Text, ws: seq<RowWrite<T>>, j: nat)
    requires Overwriting(ws, key, id)
    requires |rows| <= j < |UpsertAll(rows, key, ws)|
    ensures var k := key(UpsertAll(rows, key, ws)[j]); LastWrite(ws, k).Some? && !InUse(rows, key, k)
  {
    var last := |ws| - 1;
    var before := UpsertAll(rows, key, ws[..last]);
    OverwritingInit(ws, key, id);
    UpsertAt(before, key, ws[last]);
    KeysKept(before, key, id, ws[last]);
    if j < |before| {
      NewRowsWritten(rows, key, id, ws[..last], j);
    } else {
      KeyStaysInUse(rows, key, id, ws[..last], ws[last].key);
    }
  }

  /** A written key has a row. */
  lemma {:induction false} WrittenHasRow<T(!new)>(
    rows: seq<T>, key: T -> Text, id: T -> Text, ws: seq<RowWrite<T>>, k: Text)
    requires Overwriting(ws, key, id) && LastWrite(ws, k).Some?
    ensures InUse(UpsertAll(rows, key, ws), key, k)
  {
    var last := |ws| - 1;
    var before := UpsertAll(rows, key, ws[..last]);
    OverwritingInit(ws, key, id);
    UpsertAt(before, key, ws[last]);
    KeysKept(before, key, id, ws[last]);
    var after := UpsertAll(rows, key, ws);
    if ws[last].key == k {
      if |after| > |before| {
        assert key(after[|before|]) == k;
      } else {
        var i :| 0 <= i < |before| && key(before[i]) == k;
        assert key(after[i]) == k;
      }
    } else {
      WrittenHasRow(rows, key, id, ws[..last], k);
      var i :| 0 <= i < |before| && key(before[i]) == k;
      assert key(after[i]) == k;
    }
  }

  // ---------------------------------------------------------------- writes that repeat

  /** Both are hidden, or both are shown and the same. */
  ghost predicate Unchanged<T>(x: T, y: T, same: (T, T) -> bool, hidden: T -> bool) {
    if hidden(x) then hidden(y) else !hidden(y) && same(x, y)
  }

  /** A write leaves hidden exactly what it would create hidden. */
  ghost predicate Hides<T(!new)>(ws: seq<RowWrite<T>>, hidden: T -> bool) {
    forall i, x: T | 0 <= i < |ws| :: hidden(ws[i].update(x)) == hidden(ws[i].create)
  }

  /** The write repeats what the row of its key held; where there is none, it creates a hidden one. */
  ghost predicate RestatedAt<T>(rows: seq<T>, key: T -> Text, w: RowWrite<T>, same: (T, T) -> bool, hidden: T -> bool) {
    if InUse(rows, key, w.key)
    then exists i | 0 <= i < |rows| :: key(rows[i]) == w.key && Unchanged(rows[i], w.update(rows[i]), same, hidden)
    else hidden(w.create)
  }

  /** The newest write to each key repeats what was there. */
  ghost predicate Restated<T>(
    rows: seq<T>, key: T -> Text, ws: seq<RowWrite<T>>, same: (T, T) -> bool, hidden: T -> bool)
  {
    forall k: Text :: LastWrite(ws, k).Some? ==> RestatedAt(rows, key, LastWrite(ws, k).value, same, hidden)
  }

  /** Row by row nothing changed, and what was added is hidden. */
  ghost predicate UnchangedInPlace<T>(rows: seq<T>, after: seq<T>, same: (T, T) -> bool, hidden: T -> bool) {
    && |rows| <= |after|
    && (forall i | 0 <= i < |rows| :: Unchanged(rows[i], after[i], same, hidden))
    && forall j | |rows| <= j < |after| :: hidden(after[j])
  }

  /** A new row is hidden exactly when the newest write to its key hides. */
  lemma {:induction false} NewRowHidden<T(!new)>(
    rows: seq<T>, key: T -> Text, id: T -> Text, ws: seq<RowWrite<T>>, hidden: T -> bool, j: nat)
    requires Overwriting(ws, key, id) && Hides(ws, hidden) && DistinctKeys(UpsertAll(rows, key, ws), key)
    requires |rows| <= j < |UpsertAll(rows, key, ws)|
    ensures
      var row := UpsertAll(rows, key, ws)[j];
      LastWrite(ws, key(row)).Some? && hidden(row) == hidden(LastWrite(ws, key(row)).value.create)
  {
    var last := |ws| - 1;
    var before := UpsertAll(rows, key, ws[..last]);
    OverwritingInit(ws, key, id);
    UpsertAt(before, key, ws[last]);
    KeysKept(before, key, id, ws[last]);
    DistinctPrefix(before, UpsertAll(rows, key, ws), key);
    if j < |before| {
      NewRowHidden(rows, key, id, ws[..last], hidden, j);
      if key(before[j]) == ws[last].key {
        UpsertHits(before, key, ws[last], j);
      }
    }
  }

  lemma RestatedKeepsRow<T(!new)>(
    rows: seq<T>, key: T -> Text, id: T -> Text, ws: seq<RowWrite<T>>, same: (T, T) -> bool, hidden: T -> bool, i: nat)
    requires Overwriting(ws, key, id) && DistinctKeys(UpsertAll(rows, key, ws), key)
    requires i < |rows| && (!hidden(rows[i]) ==> same(rows[i], rows[i]))
    requires Restated(rows, key, ws, same, hidden)
    ensures i < |UpsertAll(rows, key, ws)| && Unchanged(rows[i], UpsertAll(rows, key, ws)[i], same, hidden)
  {
    RowsStay(rows, key, id, ws);
    DistinctPrefix(rows, UpsertAll(rows, key, ws), key);
    RowFollowsAll(rows, key, id, ws, i);
    var k := key(rows[i]);
    if LastWrite(ws, k).Some? {
      var at := LastWriteIsOne(ws, k);
      assert RestatedAt(rows, key, ws[at], same, hidden) && InUse(rows, key, k);
      var j :| 0 <= j < |rows| && key(rows[j]) == k && Unchanged(rows[j], ws[at].update(rows[j]), same, hidden);
      assert i == j;
    }
  }

  lemma RestatedKeeps<T(!new)>(
    rows: seq<T>, key: T -> Text, id: T -> Text, ws: seq<RowWrite<T>>, same: (T, T) -> bool, hidden: T -> bool)
    requires Overwriting(ws, key, id) && Hides(ws, hidden) && DistinctKeys(UpsertAll(rows, key, ws), key)
    requires forall i | 0 <= i < |rows| && !hidden(rows[i]) :: same(rows[i], rows[i])
    requires Restated(rows, key, ws, same, hidden)
    ensures UnchangedInPlace(rows, UpsertAll(rows, key, ws), same, hidden)
  {
    var after := UpsertAll(rows, key, ws);
    RowsStay(rows, key, id, ws);
    forall i | 0 <= i < |rows| ensures Unchanged(rows[i], after[i], same, hidden) {
      RestatedKeepsRow(rows, key, id, ws, same, hidden, i);
    }
    forall j | |rows| <= j < |after| ensures hidden(after[j]) {
      NewRowHidden(rows, key, id, ws, hidden, j);
      NewRowsWritten(rows, key, id, ws, j);
      var at := LastWriteIsOne(ws, key(after[j]));
      assert RestatedAt(rows, key, ws[at], same, hidden);
    }
  }

  lemma KeptRestatesAt<T(!new)>(
    rows: seq<T>, key: T -> Text, id: T -> Text, ws: seq<RowWrite<T>>, same: (T, T) -> bool, hidden: T -> bool, k: Text)
    requires Overwriting(ws, key, id) && Hides(ws, hidden) && DistinctKeys(UpsertAll(rows, key, ws), key)
    requires UnchangedInPlace(rows, UpsertAll(rows, key, ws), same, hidden) && LastWrite(ws, k).Some?
    ensures RestatedAt(rows, key, LastWrite(ws, k).value, same, hidden)
  {
    var after := UpsertAll(rows, key, ws);
    var at := LastWriteIsOne(ws, k);
    RowsStay(rows, key, id, ws);
    WrittenHasRow(rows, key, id, ws, k);
    var i: nat :| i < |after| && key(after[i]) == k;
    if i < |rows| {
      RowFollowsAll(rows, key, id, ws, i);
      assert key(rows[i]) == k && Unchanged(rows[i], ws[at].update(rows[i]), same, hidden);
    } else {
      NewRowHidden(rows, key, id, ws, hidden, i);
      NewRowsWritten(rows, key, id, ws, i);
    }
  }

  lemma KeptRestates<T(!new)>(
    rows: seq<T>, key: T -> Text, id: T -> Text, ws: seq<RowWrite<T>>, same: (T, T) -> bool, hidden: T -> bool)
    requires Overwriting(ws, key, id) && Hides(ws, hidden) && DistinctKeys(UpsertAll(rows, key, ws), key)
    requires UnchangedInPlace(rows, UpsertAll(rows, key, ws), same, hidden)
    ensures Restated(rows, key, ws, same, hidden)
  {
    forall k: Text | LastWrite(ws, k).Some? ensures RestatedAt(rows, key, LastWrite(ws, k).value, same, hidden) {
      KeptRestatesAt(rows, key, id, ws, same, hidden, k);
    }
  }

  // ---------------------------------------------------------------- what a read shows of it

  ghost predicate HasShown<T>(x: T, rows: seq<T>, same: (T, T) -> bool, hidden: T -> bool) {
    exists j | 0 <= j < |rows| :: !hidden(rows[j]) && same(x, rows[j])
  }

  lemma {:induction false} ShownMember<T>(rows: seq<T>, hidden: T -> bool, x: T)
    ensures x in Shown(rows, hidden) <==> x in rows && !hidden(x)
  {
    if rows != [] {
      ShownMember(rows[1..], hidden, x);
      assert rows == [rows[0]] + rows[1..];
    }
  }

  lemma ShownCounterpart<T>(x: T, rows: seq<T>, same: (T, T) -> bool, hidden: T -> bool)
    ensures HasCounterpart(x, Shown(rows, hidden), same) <==> HasShown(x, rows, same, hidden)
  {
    var shown := Shown(rows, hidden);
    if HasCounterpart(x, shown, same) {
      var i :| 0 <= i < |shown| && same(x, shown[i]);
      ShownMember(rows, hidden, shown[i]);
      var j :| 0 <= j < |rows| && rows[j] == shown[i];
    }
    if HasShown(x, rows, same, hidden) {
      var j :| 0 <= j < |rows| && !hidden(rows[j]) && same(x, rows[j]);
      ShownMember(rows, hidden, rows[j]);
      var i :| 0 <= i < |shown| && shown[i] == rows[j];
    }
  }

  lemma ShownCounterparts<T>(xs: seq<T>, ys: seq<T>, same: (T, T) -> bool, hidden: T -> bool)
    ensures Counterparts(Shown(xs, hidden), Shown(ys, hidden), same)
            <==> forall i | 0 <= i < |xs| && !hidden(xs[i]) :: HasShown(xs[i], ys, same, hidden)
  {
    var shown := Shown(xs, hidden);
    if Counterparts(shown, Shown(ys, hidden), same) {
      forall i | 0 <= i < |xs| && !hidden(xs[i]) ensures HasShown(xs[i], ys, same, hidden) {
        ShownMember(xs, hidden, xs[i]);
        var k :| 0 <= k < |shown| && shown[k] == xs[i];
        assert HasCounterpart(shown[k], Shown(ys, hidden), same);
        ShownCounterpart(xs[i], ys, same, hidden);
      }
    }
    if forall i | 0 <= i < |xs| && !hidden(xs[i]) :: HasShown(xs[i], ys, same, hidden) {
      forall k | 0 <= k < |shown| ensures HasCounterpart(shown[k], Shown(ys, hidden), same) {
        ShownMember(xs, hidden, shown[k]);
        var i :| 0 <= i < |xs| && xs[i] == shown[k];
        ShownCounterpart(xs[i], ys, same, hidden);
      }
    }
  }

  ghost predicate SameKeepsIds<T(!new)>(id: T -> Text, same: (T, T) -> bool) {
    forall x: T, y: T :: same(x, y) ==> same(y, x) && id(x) == id(y)
  }

  ghost predicate IdsInPlace<T>(rows: seq<T>, after: seq<T>, id: T -> Text) {
    && |rows| <= |after| && DistinctKeys(after, id)
    && forall i | 0 <= i < |rows| :: id(after[i]) == id(rows[i])
  }

  ghost predicate ShownStay<T>(rows: seq<T>, after: seq<T>, same: (T, T) -> bool, hidden: T -> bool) {
    && (forall i | 0 <= i < |rows| && !hidden(rows[i]) :: HasShown(rows[i], after, same, hidden))
    && forall j | 0 <= j < |after| && !hidden(after[j]) :: HasShown(after[j], rows, same, hidden)
  }

  lemma ShownStayAt<T(!new)>(
    rows: seq<T>, after: seq<T>, id: T -> Text, same: (T, T) -> bool, hidden: T -> bool, j: nat)
    requires IdsInPlace(rows, after, id) && SameKeepsIds(id, same) && ShownStay(rows, after, same, hidden)
    requires j < |after| && !hidden(after[j])
    ensures j < |rows| && !hidden(rows[j]) && same(rows[j], after[j])
  {
    assert HasShown(after[j], rows, same, hidden);
    var k: nat :| k < |rows| && !hidden(rows[k]) && same(after[j], rows[k]);
    assert same(rows[k], after[j]) && id(rows[k]) == id(after[j]);
    assert id(after[k]) == id(after[j]);
    assert k == j;
  }

  lemma RowStaysInPlace<T(!new)>(
    rows: seq<T>, after: seq<T>, id: T -> Text, same: (T, T) -> bool, hidden: T -> bool, i: nat)
    requires IdsInPlace(rows, after, id) && SameKeepsIds(id, same) && ShownStay(rows, after, same, hidden)
    requires i < |rows|
    ensures Unchanged(rows[i], after[i], same, hidden)
  {
    if hidden(rows[i]) {
      if !hidden(after[i]) {
        ShownStayAt(rows, after, id, same, hidden, i);
        assert false;
      }
    } else {
      assert HasShown(rows[i], after, same, hidden);
      var j: nat :| j < |after| && !hidden(after[j]) && same(rows[i], after[j]);
      assert id(after[i]) == id(after[j]);
      assert i == j;
    }
  }

  lemma StayInPlace<T(!new)>(rows: seq<T>, after: seq<T>, id: T -> Text, same: (T, T) -> bool, hidden: T -> bool)
    requires IdsInPlace(rows, after, id) && SameKeepsIds(id, same) && ShownStay(rows, after, same, hidden)
    ensures UnchangedInPlace(rows, after, same, hidden)
  {
    forall i | 0 <= i < |rows| ensures Unchanged(rows[i], after[i], same, hidden) {
      RowStaysInPlace(rows, after, id, same, hidden, i);
    }
    forall j | |rows| <= j < |after| ensures hidden(after[j]) {
      if !hidden(after[j]) {
        ShownStayAt(rows, after, id, same, hidden, j);
        assert false;
      }
    }
  }

  lemma InPlaceStay<T(!new)>(rows: seq<T>, after: seq<T>, id: T -> Text, same: (T, T) -> bool, hidden: T -> bool)
    requires SameKeepsIds(id, same) && UnchangedInPlace(rows, after, same, hidden)
    ensures ShownStay(rows, after, same, hidden)
  {
    forall i | 0 <= i < |rows| && !hidden(rows[i]) ensures HasShown(rows[i], after, same, hidden) {
      assert Unchanged(rows[i], after[i], same, hidden);
    }
    forall j | 0 <= j < |after| && !hidden(after[j]) ensures HasShown(after[j], rows, same, hidden) {
      assert j < |rows| && Unchanged(rows[j], after[j], same, hidden);
      assert same(after[j], rows[j]);
    }
  }

  /** As id-keyed sets, the shown rows are the same exactly when they are so place by place. */
  lemma ShownInPlaceIff<T(!new)>(rows: seq<T>, after: seq<T>, id: T -> Text, same: (T, T) -> bool, hidden: T -> bool)
    requires IdsInPlace(rows, after, id) && SameKeepsIds(id, same)
    ensures SameRows(Shown(rows, hidden), Shown(after, hidden), same) <==> UnchangedInPlace(rows, after, same, hidden)
  {
    ShownCounterparts(rows, after, same, hidden);
    ShownCounterparts(after, rows, same, hidden);
    assert SameRows(Shown(rows, hidden), Shown(after, hidden), same) <==> ShownStay(rows, after, same, hidden);
    if ShownStay(rows, after, same, hidden) {
      StayInPlace(rows, after, id, same, hidden);
    }
    if UnchangedInPlace(rows, after, same, hidden) {
      InPlaceStay(rows, after, id, same, hidden);
    }
  }

  /**
   As an id-keyed set, what a read shows is unchanged by a run of writes exactly when the newest write to each
   key repeats what was there.
   */
  lemma RowsUnchangedIff<T(!new)>(
    rows: seq<T>, key: T -> Text, id: T -> Text, ws: seq<RowWrite<T>>, same: (T, T) -> bool, hidden: T -> bool)
    requires Overwriting(ws, key, id) && Hides(ws, hidden) && SameKeepsIds(id, same)
    requires DistinctKeys(UpsertAll(rows, key, ws), key) && DistinctKeys(UpsertAll(rows, key, ws), id)
    requires forall i | 0 <= i < |rows| && !hidden(rows[i]) :: same(rows[i], rows[i])
    ensures SameRows(Shown(rows, hidden), Shown(UpsertAll(rows, key, ws), hidden), same)
            <==> Restated(rows, key, ws, same, hidden)
  {
    var after := UpsertAll(rows, key, ws);
    RowsStay(rows, key, id, ws);
    ShownInPlaceIff(rows, after, id, same, hidden);
    if UnchangedInPlace(rows, after, same, hidden) {
      KeptRestates(rows, key, id, ws, same, hidden);
    }
    if Restated(rows, key, ws, same, hidden) {
      RestatedKeeps(rows, key, id, ws, same, hidden);
    }
  }
}
