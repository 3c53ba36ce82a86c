/**
 Properties of the operation log that relate several calls: what each operation
 does to the visible strokes, the id sequence handed out by successive appends,
 and when undo and redo are each other's inverse.
 */
module DrawingStateProperties {
  import opened Options
  import opened DrawingState

  // ---------------------------------------------------------------------------
  // The visible projection
  // ---------------------------------------------------------------------------

  /** Filtering distributes over concatenation of logs. */
  lemma {:induction false} ActiveConcat<S>(a: seq<Op<S>>, b: seq<Op<S>>)
    ensures Active(a + b) == Active(a) + Active(b)
    decreases |b|
  {
    if b == [] {
      assert a + b == a;
    } else {
      var b' := b[..|b| - 1];
      assert (a + b)[..|a + b| - 1] == a + b';
      ActiveConcat(a, b');
    }
  }

  /** The positions of the visible entries, in log order. */
  ghost function VisibleIndices<S>(ops: seq<Op<S>>): seq<nat>
    decreases |ops|
  {
    if ops == [] then []
    else VisibleIndices(ops[..|ops| - 1]) + (if ops[|ops| - 1].undone then [] else [|ops| - 1])
  }

  /** The k-th active stroke is the payload of the k-th listed position, which is visible. */
  lemma {:induction false} VisibleIndicesSound<S>(ops: seq<Op<S>>)
    ensures |Active(ops)| == |VisibleIndices(ops)|
    ensures forall m :: 0 <= m < |VisibleIndices(ops)| ==>
              && VisibleIndices(ops)[m] < |ops|
              && !ops[VisibleIndices(ops)[m]].undone
              && Active(ops)[m] == ops[VisibleIndices(ops)[m]].data
    decreases |ops|
  {
    if ops != [] {
      var init, last := ops[..|ops| - 1], ops[|ops| - 1];
      VisibleIndicesSound(init);
      var prev := VisibleIndices(init);
      assert forall m :: 0 <= m < |prev| ==> prev[m] < |init| && ops[prev[m]] == init[prev[m]];
      if last.undone {
        assert VisibleIndices(ops) == prev;
        assert Active(ops) == Active(init);
      } else {
        assert VisibleIndices(ops) == prev + [|ops| - 1];
        assert Active(ops) == Active(init) + [last.data];
      }
    }
  }

  /** Listed positions are in increasing order and below the length. */
  lemma {:induction false} VisibleIndicesSorted<S>(ops: seq<Op<S>>)
    ensures forall m :: 0 <= m < |VisibleIndices(ops)| ==> VisibleIndices(ops)[m] < |ops|
    ensures forall m, n :: 0 <= m < n < |VisibleIndices(ops)| ==> VisibleIndices(ops)[m] < VisibleIndices(ops)[n]
    decreases |ops|
  {
    if ops != [] {
      var init := ops[..|ops| - 1];
      VisibleIndicesSorted(init);
      var prev := VisibleIndices(init);
      assert forall m :: 0 <= m < |prev| ==> prev[m] < |init|;
      if !ops[|ops| - 1].undone {
        assert VisibleIndices(ops) == prev + [|ops| - 1];
      } else {
        assert VisibleIndices(ops) == prev;
      }
    }
  }

  /** Every visible position is listed. */
  lemma {:induction false} VisibleIndicesComplete<S>(ops: seq<Op<S>>)
    ensures forall k :: 0 <= k < |ops| && !ops[k].undone ==> k in VisibleIndices(ops)
    decreases |ops|
  {
    if ops != [] {
      var init := ops[..|ops| - 1];
      VisibleIndicesComplete(init);
      assert forall k :: 0 <= k < |init| ==> init[k] == ops[k];
    }
  }

  /**
   `Active` is exactly the filter: its k-th element is the payload of the k-th
   visible entry, the visible positions are enumerated in increasing order, and
   every visible position is enumerated.
   */
  lemma ActiveIsFilter<S>(ops: seq<Op<S>>)
    ensures var idx := VisibleIndices(ops);
            && |Active(ops)| == |idx|
            && (forall m :: 0 <= m < |idx| ==>
                  idx[m] < |ops| && !ops[idx[m]].undone && Active(ops)[m] == ops[idx[m]].data)
            && (forall m, n :: 0 <= m < n < |idx| ==> idx[m] < idx[n])
            && (forall k :: 0 <= k < |ops| && !ops[k].undone ==> k in idx)
  {
    VisibleIndicesSound(ops);
    VisibleIndicesSorted(ops);
    VisibleIndicesComplete(ops);
  }

  // ---------------------------------------------------------------------------
  // Effect of each operation on what clients see
  // ---------------------------------------------------------------------------

  /** Appending shows the new stroke after everything already visible. */
  lemma AddStrokeShowsStroke<S>(log: Log<S>, stroke: S, now: int)
    ensures ActiveStrokes(AddStroke(log, stroke, now).0) == ActiveStrokes(log) + [stroke]
  {
    var after := AddStroke(log, stroke, now).0;
    assert after.ops[..|after.ops| - 1] == log.ops;
  }

  /** The projection of a log cut around one entry. */
  lemma ActiveAround<S>(pre: seq<Op<S>>, o: Op<S>, post: seq<Op<S>>)
    ensures Active(pre + [o] + post) == Active(pre) + (if o.undone then [] else [o.data]) + Active(post)
  {
    ActiveConcat(pre + [o], post);
    ActiveConcat(pre, [o]);
    assert [o][..0] == [];
  }

  /** Splitting a log at entry i: the entries before, that entry, the entries after. */
  lemma SplitAt<S>(ops: seq<Op<S>>, i: nat)
    requires i < |ops|
    ensures ops == ops[..i] + [ops[i]] + ops[i + 1..]
  {
  }

  /** Nothing after entry i is visible when every entry after it is undone. */
  lemma HiddenAfter<S>(ops: seq<Op<S>>, i: nat)
    requires i < |ops|
    requires forall j :: i < j < |ops| ==> ops[j].undone
    ensures Active(ops[i + 1..]) == []
  {
    var post := ops[i + 1..];
    assert forall j :: 0 <= j < |post| ==> post[j] == ops[i + 1 + j];
  }

  /** A successful undo hides exactly the last visible stroke, and returns its operation. */
  lemma UndoHidesLastVisible<S>(log: Log<S>)
    ensures var r := Undo(log);
            var before := ActiveStrokes(log);
            r.1.Some? ==>
              && before != []
              && r.1.value.data == before[|before| - 1]
              && ActiveStrokes(r.0) == before[..|before| - 1]
    ensures Undo(log).1.None? ==> ActiveStrokes(log) == []
  {
    var r := Undo(log);
    if r.1.Some? {
      var i := LatestVisible(log.ops, |log.ops|).value;
      var o, o' := log.ops[i], r.0.ops[i];
      var pre, post := log.ops[..i], log.ops[i + 1..];
      assert r.0.ops == Flip(log.ops, i, true) && r.1.value == o';
      SplitAt(log.ops, i);
      SplitAt(r.0.ops, i);
      assert r.0.ops[..i] == pre && r.0.ops[i + 1..] == post;
      HiddenAfter(log.ops, i);
      ActiveAround(pre, o, post);
      ActiveAround(pre, o', post);
      assert Active(log.ops) == Active(pre) + [o.data];
      assert Active(r.0.ops) == Active(pre);
    }
  }

  /**
   A successful redo re-shows the oldest hidden stroke at its log position: every
   entry before it is visible, so it lands at index i of the visible list, where
   i is its index in the log.
   */
  lemma RedoReshowsOldestHidden<S>(log: Log<S>)
    ensures var (after, op) := Redo(log);
            var before := ActiveStrokes(log);
            op.Some? ==> exists i ::
              && 0 <= i < |log.ops|
              && i <= |before|
              && log.ops[i].id == op.value.id
              && ActiveStrokes(after) == before[..i] + [op.value.data] + before[i..]
    ensures Redo(log).1.None? ==> |ActiveStrokes(log)| == |log.ops|
  {
    var (after, op) := Redo(log);
    if op.Some? {
      var i := EarliestHidden(log.ops, 0).value;
      var pre, post := log.ops[..i], log.ops[i + 1..];
      SplitAt(log.ops, i);
      SplitAt(after.ops, i);
      assert after.ops[..i] == pre && after.ops[i + 1..] == post;
      assert NoneUndone(pre) by {
        assert forall j :: 0 <= j < |pre| ==> pre[j] == log.ops[j];
      }
      ActiveAround(pre, log.ops[i], post);
      ActiveAround(pre, after.ops[i], post);
      var before := ActiveStrokes(log);
      assert before[..i] == Active(pre);
      assert before[i..] == Active(post);
    }
  }

  /** After `clear` nothing is visible and the next append gets id 1. */
  lemma ClearResets<S>(log: Log<S>, stroke: S, now: int)
    ensures ActiveStrokes(Clear(log)) == []
    ensures AddStroke(Clear(log), stroke, now).1.id == 1
  {
  }

  // ---------------------------------------------------------------------------
  // Ids handed out by successive appends
  // ---------------------------------------------------------------------------

  /**
   Append `strokes` one by one (the i-th at clock value `times[i]`), collecting
   the returned ids: they are consecutive, starting at the counter.
   */
  function AddAll<S>(log: Log<S>, strokes: seq<S>, times: seq<int>): (r: (Log<S>, seq<int>))
    requires |times| == |strokes|
    ensures |r.1| == |strokes| && forall k :: 0 <= k < |r.1| ==> r.1[k] == log.nextOpId + k
    ensures r.0.nextOpId == log.nextOpId + |strokes|
    ensures |r.0.ops| == |log.ops| + |strokes|
    decreases |strokes|
  {
    if strokes == [] then (log, [])
    else
      var (next, op) := AddStroke(log, strokes[0], times[0]);
      var (last, ids) := AddAll(next, strokes[1..], times[1..]);
      (last, [op.id] + ids)
  }

  /** Successive appends leave the earlier history alone and show their strokes in order. */
  lemma {:induction false} AddAllShowsStrokes<S>(log: Log<S>, strokes: seq<S>, times: seq<int>)
    requires |times| == |strokes|
    ensures var last := AddAll(log, strokes, times).0;
            && last.ops[..|log.ops|] == log.ops
            && ActiveStrokes(last) == ActiveStrokes(log) + strokes
    decreases |strokes|
  {
    if strokes != [] {
      var next := AddStroke(log, strokes[0], times[0]).0;
      AddStrokeShowsStroke(log, strokes[0], times[0]);
      AddAllShowsStrokes(next, strokes[1..], times[1..]);
      var last := AddAll(next, strokes[1..], times[1..]).0;
      assert last.ops[..|log.ops|] == last.ops[..|next.ops|][..|log.ops|];
      assert strokes == [strokes[0]] + strokes[1..];
    }
  }

  /**
   On a fresh log the ids returned by successive appends are 1, 2, 3, ... with no
   gaps. A cleared log is a fresh one (see `Clear`), so the same holds after `clear`.
   */
  lemma IdsFromOne<S>(strokes: seq<S>, times: seq<int>)
    requires |times| == |strokes|
    ensures var (log, ids) := AddAll(Fresh(), strokes, times);
            && (forall k :: 0 <= k < |ids| ==> ids[k] == k + 1)
            && Valid(log)
  {
    AddAllValid(Fresh(), strokes, times);
  }

  lemma {:induction false} AddAllValid<S>(log: Log<S>, strokes: seq<S>, times: seq<int>)
    requires |times| == |strokes|
    requires Valid(log)
    ensures Valid(AddAll(log, strokes, times).0)
    decreases |strokes|
  {
    if strokes != [] {
      AddAllValid(AddStroke(log, strokes[0], times[0]).0, strokes[1..], times[1..]);
    }
  }

  /**
   `getState` loses nothing: the log can be rebuilt from the snapshot, and
   filtering the snapshot's history gives the strokes clients see.
   */
  lemma SnapshotConsistent<S>(log: Log<S>)
    ensures var s := GetState(log);
            && Log(s.opLog, s.nextOpId) == log
            && Active(s.opLog) == ActiveStrokes(log)
  {
  }

  // ---------------------------------------------------------------------------
  // Undo and redo as inverses
  // ---------------------------------------------------------------------------

  /** Undo and redo keep hidden entries a suffix; an append keeps it only if nothing is hidden. */
  lemma StackShapePreserved<S>(log: Log<S>, stroke: S, now: int)
    requires StackShaped(log.ops)
    ensures StackShaped(Undo(log).0.ops)
    ensures StackShaped(Redo(log).0.ops)
    ensures StackShaped(AddStroke(log, stroke, now).0.ops) <==> NoneUndone(log.ops)
  {
    var after := AddStroke(log, stroke, now).0.ops;
    if !NoneUndone(log.ops) {
      var j :| 0 <= j < |log.ops| && log.ops[j].undone;
      assert after[j] == log.ops[j] && !after[|log.ops|].undone;
    }
  }

  /** When hidden entries form a suffix and something is visible, redo undoes the undo. */
  lemma UndoThenRedo<S>(log: Log<S>)
    requires StackShaped(log.ops)
    requires !forall j :: 0 <= j < |log.ops| ==> log.ops[j].undone
    ensures var (mid, undone) := Undo(log);
            var (last, redone) := Redo(mid);
            && last == log
            && undone.Some? && redone.Some?
            && redone.value == undone.value.(undone := false)
  {
    var i := LatestVisible(log.ops, |log.ops|).value;
    var mid := Undo(log).0;
    assert EarliestHidden(mid.ops, 0) == Some(i) by {
      assert forall j :: 0 <= j < i ==> !mid.ops[j].undone;
    }
    assert Redo(mid).0.ops == log.ops;
  }

  /**
   Conversely, when something is visible and redo after undo restores the log,
   the hidden entries already formed a suffix: the redo must have picked the
   entry the undo hid, so nothing before it was hidden.
   */
  lemma RoundTripNeedsStackShape<S>(log: Log<S>)
    requires !forall j :: 0 <= j < |log.ops| ==> log.ops[j].undone
    ensures Redo(Undo(log).0).0 == log ==> StackShaped(log.ops)
  {
    if Redo(Undo(log).0).0 == log {
      var i := LatestVisible(log.ops, |log.ops|).value;
      var mid := Undo(log).0;
      assert mid.ops[i].undone;
      var k := EarliestHidden(mid.ops, 0).value;
      assert !Redo(mid).0.ops[i].undone;
      assert k == i;
      assert forall a :: 0 <= a < i ==> log.ops[a] == mid.ops[a];
    }
  }

  /** For a log with something visible, redo after undo is the identity exactly when hidden entries form a suffix. */
  lemma UndoRedoRoundTripIff<S>(log: Log<S>)
    requires !forall j :: 0 <= j < |log.ops| ==> log.ops[j].undone
    ensures Redo(Undo(log).0).0 == log <==> StackShaped(log.ops)
  {
    if StackShaped(log.ops) {
      UndoThenRedo(log);
    }
    RoundTripNeedsStackShape(log);
  }

  /** When hidden entries form a suffix and something is hidden, undo undoes the redo. */
  lemma RedoThenUndo<S>(log: Log<S>)
    requires StackShaped(log.ops)
    requires !NoneUndone(log.ops)
    ensures var (mid, redone) := Redo(log);
            var (last, undone) := Undo(mid);
            && last == log
            && redone.Some? && undone.Some?
            && undone.value == redone.value.(undone := true)
  {
    var i := EarliestHidden(log.ops, 0).value;
    var mid := Redo(log).0;
    assert LatestVisible(mid.ops, |mid.ops|) == Some(i) by {
      assert forall j :: i < j < |mid.ops| ==> mid.ops[j].undone;
    }
    assert Undo(mid).0.ops == log.ops;
  }

  /** With nothing undone, undo followed by redo restores the log exactly (also when it is empty). */
  lemma NothingUndoneRoundTrip<S>(log: Log<S>)
    requires NoneUndone(log.ops)
    ensures Redo(Undo(log).0).0 == log
  {
    if log.ops != [] {
      assert !log.ops[0].undone;
      UndoThenRedo(log);
    }
  }

  /** The projection of a three-entry log, entry by entry. */
  lemma ActiveOfThree<S>(ops: seq<Op<S>>)
    requires |ops| == 3
    ensures Active(ops) == Active([ops[0]]) + Active([ops[1]]) + Active([ops[2]])
  {
    assert ops == [ops[0]] + [ops[1]] + [ops[2]];
    ActiveConcat([ops[0]] + [ops[1]], [ops[2]]);
    ActiveConcat([ops[0]], [ops[1]]);
  }

  /** First two steps of the counterexample: append a and b, then undo b. */
  lemma AppendTwoUndoOne<S>(a: S, b: S)
    ensures var l1 := AddStroke(AddStroke(Fresh(), a, 0).0, b, 1).0;
            Undo(l1).0 == Log([Op(1, StrokeKind, a, false, 0), Op(2, StrokeKind, b, true, 1)], 3)
  {
    var l1 := AddStroke(AddStroke(Fresh(), a, 0).0, b, 1).0;
    assert l1.ops == [Op(1, StrokeKind, a, false, 0), Op(2, StrokeKind, b, false, 1)];
    assert LatestVisible(l1.ops, 2) == Some(1);
  }

  /** Next steps: append c on top of the hidden b, then undo c. */
  lemma AppendOverHiddenThenUndo<S>(a: S, b: S, c: S)
    ensures var l2 := AddStroke(Log([Op(1, StrokeKind, a, false, 0), Op(2, StrokeKind, b, true, 1)], 3), c, 2).0;
            && l2 == Log([Op(1, StrokeKind, a, false, 0), Op(2, StrokeKind, b, true, 1), Op(3, StrokeKind, c, false, 2)], 4)
            && Undo(l2) == (Log([Op(1, StrokeKind, a, false, 0), Op(2, StrokeKind, b, true, 1), Op(3, StrokeKind, c, true, 2)], 4),
                            Some(Op(3, StrokeKind, c, true, 2)))
  {
    var l2 := AddStroke(Log([Op(1, StrokeKind, a, false, 0), Op(2, StrokeKind, b, true, 1)], 3), c, 2).0;
    assert l2.ops == [Op(1, StrokeKind, a, false, 0), Op(2, StrokeKind, b, true, 1), Op(3, StrokeKind, c, false, 2)];
    assert LatestVisible(l2.ops, 3) == Some(2);
    assert Flip(l2.ops, 2, true)
        == [Op(1, StrokeKind, a, false, 0), Op(2, StrokeKind, b, true, 1), Op(3, StrokeKind, c, true, 2)];
  }

  /** Last step: the redo re-shows b, the older hidden entry, rather than c. */
  lemma RedoPicksOlder<S>(a: S, b: S, c: S)
    ensures var l3 := Log([Op(1, StrokeKind, a, false, 0), Op(2, StrokeKind, b, true, 1), Op(3, StrokeKind, c, true, 2)], 4);
            Redo(l3) == (Log([Op(1, StrokeKind, a, false, 0), Op(2, StrokeKind, b, false, 1), Op(3, StrokeKind, c, true, 2)], 4),
                         Some(Op(2, StrokeKind, b, false, 1)))
  {
    var l3 := Log([Op(1, StrokeKind, a, false, 0), Op(2, StrokeKind, b, true, 1), Op(3, StrokeKind, c, true, 2)], 4);
    assert EarliestHidden(l3.ops, 1) == Some(1);
    assert EarliestHidden(l3.ops, 0) == Some(1);
    assert Flip(l3.ops, 1, false)
        == [Op(1, StrokeKind, a, false, 0), Op(2, StrokeKind, b, false, 1), Op(3, StrokeKind, c, true, 2)];
  }

  /**
   The round trip fails while an older entry is still hidden: after appending a
   and b, undoing b, and appending c, an undo hides c but the very next redo
   re-shows b, so the visible strokes go from [a, c] to [a, b].
   */
  lemma InterleavedAppendBreaksRoundTrip<S>(a: S, b: S, c: S)
    ensures var l1 := AddStroke(AddStroke(Fresh(), a, 0).0, b, 1).0;
            var l2 := AddStroke(Undo(l1).0, c, 2).0;
            var (l3, undone) := Undo(l2);
            var (l4, redone) := Redo(l3);
            && undone.Some? && undone.value.id == 3
            && redone.Some? && redone.value.id == 2
            && ActiveStrokes(l2) == [a, c]
            && ActiveStrokes(l4) == [a, b]
            && l4 != l2
  {
    AppendTwoUndoOne(a, b);
    AppendOverHiddenThenUndo(a, b, c);
    RedoPicksOlder(a, b, c);
    var opA, hidB, opB := Op(1, StrokeKind, a, false, 0), Op(2, StrokeKind, b, true, 1), Op(2, StrokeKind, b, false, 1);
    var opC, hidC := Op(3, StrokeKind, c, false, 2), Op(3, StrokeKind, c, true, 2);
    ActiveOfThree([opA, hidB, opC]);
    ActiveOfThree([opA, opB, hidC]);
    assert [opA, hidB, opC] != [opA, opB, hidC] by {
      assert [opA, hidB, opC][1] != [opA, opB, hidC][1];
    }
  }
}
