/**
 The per-room operation log of the collaborative canvas server (`DrawingState`).

 The log is an append-only sequence of stroke operations. Each carries a
 room-local id, the stroke payload and an `undone` flag; undo and redo act on
 one global stack: undo hides the most recently appended visible entry, redo
 re-shows the OLDEST hidden entry. What clients see is the payload of every
 entry that is not undone, in log order.

 The stroke payload is never interpreted by the server, so it is a type
 parameter `S`. The creation timestamp comes from the clock and is passed in.
 */
module DrawingState {
  import opened Options

  /** The only operation kind the server records (`type: 'stroke'`). */
  datatype OpKind = StrokeKind

  datatype Op<S> = Op(id: int, kind: OpKind, data: S, undone: bool, timestamp: int)

  /** The log and the id the next appended operation receives. */
  datatype Log<S> = Log(ops: seq<Op<S>>, nextOpId: int)

  /** What `getState` hands out: the whole history and the id counter. */
  datatype Snapshot<S> = Snapshot(opLog: seq<Op<S>>, nextOpId: int)

  /** A newly constructed log. */
  function Fresh<S>(): Log<S> {
    Log([], 1)
  }

  // ---------------------------------------------------------------------------
  // Invariants
  // ---------------------------------------------------------------------------

  /** Ids are dense from 1 in log order and the counter is one past the last. */
  ghost predicate Valid<S>(log: Log<S>) {
    && log.nextOpId == |log.ops| + 1
    && forall k :: 0 <= k < |log.ops| ==> log.ops[k].id == k + 1
  }

  ghost predicate IdsIncreasing<S>(ops: seq<Op<S>>) {
    forall i, j :: 0 <= i < j < |ops| ==> ops[i].id < ops[j].id
  }

  /** `after` is `before` with only the flag of entry `i` set to `undone`. */
  ghost predicate OnlyFlagAt<S>(before: seq<Op<S>>, after: seq<Op<S>>, i: int, undone: bool) {
    && |after| == |before|
    && 0 <= i < |before|
    && after[i] == before[i].(undone := undone)
    && forall j :: 0 <= j < |before| && j != i ==> after[j] == before[j]
  }

  /** Hidden entries form a suffix of the log: the shape strict undo/redo alternation keeps. */
  ghost predicate StackShaped<S>(ops: seq<Op<S>>) {
    forall i, j :: 0 <= i < j < |ops| && ops[i].undone ==> ops[j].undone
  }

  ghost predicate NoneUndone<S>(ops: seq<Op<S>>) {
    forall j :: 0 <= j < |ops| ==> !ops[j].undone
  }

  /** In a valid log ids strictly increase and all lie in [1, nextOpId). */
  lemma ValidIdsOrdered<S>(log: Log<S>)
    requires Valid(log)
    ensures IdsIncreasing(log.ops)
    ensures forall k :: 0 <= k < |log.ops| ==> 1 <= log.ops[k].id < log.nextOpId
  {
  }

  // ---------------------------------------------------------------------------
  // Operations
  // ---------------------------------------------------------------------------

  /** `addStroke`: append a visible operation carrying the current counter value. */
  function AddStroke<S>(log: Log<S>, stroke: S, now: int): (r: (Log<S>, Op<S>))
    ensures r.1.id == log.nextOpId && r.1.data == stroke && !r.1.undone && r.1.timestamp == now
    ensures r.0.nextOpId == log.nextOpId + 1
    ensures |r.0.ops| == |log.ops| + 1
    ensures r.0.ops[..|log.ops|] == log.ops && r.0.ops[|log.ops|] == r.1
    ensures Valid(log) ==> Valid(r.0)
  {
    var op := Op(log.nextOpId, StrokeKind, stroke, false, now);
    (Log(log.ops + [op], log.nextOpId + 1), op)
  }

  /** Set the flag of entry `i`. */
  function Flip<S>(ops: seq<Op<S>>, i: nat, undone: bool): (r: seq<Op<S>>)
    requires i < |ops|
    ensures OnlyFlagAt(ops, r, i, undone)
  {
    ops[i := ops[i].(undone := undone)]
  }

  /** The backward scan of `undo` over the first `n` entries: the last visible one. */
  function LatestVisible<S>(ops: seq<Op<S>>, n: nat): (r: Option<nat>)
    requires n <= |ops|
    ensures r.Some? ==> r.value < n && !ops[r.value].undone
    ensures r.Some? ==> forall j :: r.value < j < n ==> ops[j].undone
    ensures r.None? ==> forall j :: 0 <= j < n ==> ops[j].undone
    decreases n
  {
    if n == 0 then None
    else if !ops[n - 1].undone then Some(n - 1)
    else LatestVisible(ops, n - 1)
  }

  /** The forward scan of `redo` from entry `from`: the first hidden one. */
  function EarliestHidden<S>(ops: seq<Op<S>>, from: nat): (r: Option<nat>)
    requires from <= |ops|
    ensures r.Some? ==> from <= r.value < |ops| && ops[r.value].undone
    ensures r.Some? ==> forall j :: from <= j < r.value ==> !ops[j].undone
    ensures r.None? ==> forall j :: from <= j < |ops| ==> !ops[j].undone
    decreases |ops| - from
  {
    if from == |ops| then None
    else if ops[from].undone then Some(from)
    else EarliestHidden(ops, from + 1)
  }

  /** `undo`: hide the highest-index visible entry and return it; `None` when there is none. */
  function Undo<S>(log: Log<S>): (r: (Log<S>, Option<Op<S>>))
    ensures r.0.nextOpId == log.nextOpId
    ensures r.1.None? <==> forall j :: 0 <= j < |log.ops| ==> log.ops[j].undone
    ensures r.1.None? ==> r.0 == log
    ensures r.1.Some? ==> exists i ::
              && 0 <= i < |log.ops|
              && !log.ops[i].undone
              && (forall j :: i < j < |log.ops| ==> log.ops[j].undone)
              && OnlyFlagAt(log.ops, r.0.ops, i, true)
              && r.1.value == r.0.ops[i]
    ensures Valid(log) ==> Valid(r.0)
  {
    match LatestVisible(log.ops, |log.ops|)
    case None => (log, None)
    case Some(i) =>
      var ops := Flip(log.ops, i, true);
      (log.(ops := ops), Some(ops[i]))
  }

  /** `redo`: re-show the lowest-index hidden entry and return it; `None` when there is none. */
  function Redo<S>(log: Log<S>): (r: (Log<S>, Option<Op<S>>))
    ensures r.0.nextOpId == log.nextOpId
    ensures r.1.None? <==> NoneUndone(log.ops)
    ensures r.1.None? ==> r.0 == log
    ensures r.1.Some? ==> exists i ::
              && 0 <= i < |log.ops|
              && log.ops[i].undone
              && (forall j :: 0 <= j < i ==> !log.ops[j].undone)
              && OnlyFlagAt(log.ops, r.0.ops, i, false)
              && r.1.value == r.0.ops[i]
    ensures Valid(log) ==> Valid(r.0)
  {
    match EarliestHidden(log.ops, 0)
    case None => (log, None)
    case Some(i) =>
      var ops := Flip(log.ops, i, false);
      (log.(ops := ops), Some(ops[i]))
  }

  /** `getActiveStrokes`: the payloads of the visible entries, in log order. */
  function Active<S>(ops: seq<Op<S>>): (r: seq<S>)
    ensures |r| <= |ops|
    ensures r == [] <==> forall j :: 0 <= j < |ops| ==> ops[j].undone
    ensures NoneUndone(ops) ==> |r| == |ops| && forall j :: 0 <= j < |ops| ==> r[j] == ops[j].data
    decreases |ops|
  {
    if ops == [] then []
    else
      var rest := Active(ops[..|ops| - 1]);
      var last := ops[|ops| - 1];
      if last.undone then rest else rest + [last.data]
  }

  function ActiveStrokes<S>(log: Log<S>): seq<S> {
    Active(log.ops)
  }

  /** `clear`: drop the whole history and restart ids at 1. */
  function Clear<S>(log: Log<S>): (r: Log<S>)
    ensures Valid(r) && ActiveStrokes(r) == [] && |r.ops| == 0
    ensures r == Fresh()
  {
    Fresh()
  }

  /**
   `getState`: the history and the counter. For a valid log the snapshot's ids
   are exactly 1..n in order and its counter is the next id to hand out.
   */
  function GetState<S>(log: Log<S>): (r: Snapshot<S>)
    ensures |r.opLog| == |log.ops|
    ensures Valid(log) ==> r.nextOpId == |r.opLog| + 1
    ensures Valid(log) ==> forall k :: 0 <= k < |r.opLog| ==> r.opLog[k].id == k + 1
  {
    Snapshot(log.ops, log.nextOpId)
  }
}
