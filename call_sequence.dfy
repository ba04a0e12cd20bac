/** A single sequential caller making one serializer call after another, each starting from the
    dynamic-write flag the previous one left behind. This is where the discipline of the shared
    `JsState.IsWritingDynamic` flag shows: which writes see it raised, and whether it leaks
    from one call into the next. */
module CallSequence {
  import opened Types
  import opened Codecs
  import opened Dispatch

  /** The six serializing entry points. */
  datatype Entry =
    | ToString | ToStringOfType | ToWriter | ToWriterOfType | ToStream | ToStreamOfType

  /** True of the generic (`<T>`) entry points, the only ones that re-dispatch. */
  predicate IsGeneric(entry: Entry) {
    entry.ToString? || entry.ToWriter? || entry.ToStream?
  }

  /** One call: the entry point, the value and the static type or type token. */
  datatype Op = Op(entry: Entry, v: Val, t: JsType)

  /** The calls that raise the flag around their writes: generic ones whose static type is
      abstract or an interface. */
  predicate RaisesFlag(op: Op) {
    IsGeneric(op.entry) && IsAbstractOrInterface(op.t)
  }

  /** The calls that leave the flag cleared: those that raise it and get past their guard (a
      null value, or a delegate for `SerializeToString<T>`, returns before the flag is raised). */
  predicate ClearsFlag(op: Op) {
    RaisesFlag(op) && !op.v.Null? && !(op.entry.ToString? && op.v.Delegate?)
  }

  /** Every write of the effect sees the flag at `raised`. */
  predicate SeesFlag(r: Effect, raised: bool) {
    forall e <- r.events :: e.dynamic == raised
  }

  /** The effect of one call from the given flag. */
  function Step(c: Codec, op: Op, flag: bool): (r: Effect)
    ensures r.flagAfter == (flag && !ClearsFlag(op))
    ensures SeesFlag(r, RaisesFlag(op) || flag)
  {
    match op.entry
    case ToString => SerializeToString(c, op.v, op.t, flag)
    case ToStringOfType => SerializeToStringOfType(c, op.v, op.t, flag)
    case ToWriter => SerializeToWriter(op.v, op.t, flag)
    case ToWriterOfType => SerializeToWriterOfType(op.v, op.t, flag)
    case ToStream => SerializeToStream(c, op.v, op.t, flag)
    case ToStreamOfType => SerializeToStreamOfType(c, op.v, op.t, flag)
  }

  /** The effects of the calls in order, each starting from the flag its predecessor left. */
  function Execute(c: Codec, ops: seq<Op>, flag: bool): (runs: seq<Effect>)
    ensures |runs| == |ops|
    decreases |ops|
  {
    if ops == [] then []
    else
      var first := Step(c, ops[0], flag);
      [first] + Execute(c, ops[1..], first.flagAfter)
  }

  /** The flag once all the calls have returned normally. */
  function FinalFlag(c: Codec, ops: seq<Op>, flag: bool): bool
    decreases |ops|
  {
    if ops == [] then flag else FinalFlag(c, ops[1..], Step(c, ops[0], flag).flagAfter)
  }

  /** The two folds over the calls agree: the last effect of `Execute` leaves the flag that
      `FinalFlag` computes. */
  lemma {:induction false} ExecuteEndsWithFinalFlag(c: Codec, ops: seq<Op>, flag: bool)
    requires ops != []
    ensures Execute(c, ops, flag)[|ops| - 1].flagAfter == FinalFlag(c, ops, flag)
    decreases |ops|
  {
    var first := Step(c, ops[0], flag);
    if |ops| > 1 {
      ExecuteEndsWithFinalFlag(c, ops[1..], first.flagAfter);
      assert Execute(c, ops, flag)[|ops| - 1] == Execute(c, ops[1..], first.flagAfter)[|ops| - 2];
    }
  }

  /** No call before position `i` has cleared the flag. */
  predicate NoneClearsBefore(ops: seq<Op>, i: int) {
    forall j | 0 <= j < i && j < |ops| :: !ClearsFlag(ops[j])
  }

  /** Clearing calls in `ops` before position `k + 1` are the first call, if it clears, and the
      clearing calls of the rest before position `k`. */
  lemma NoneClearsShift(ops: seq<Op>, k: int)
    requires ops != [] && 0 <= k
    ensures NoneClearsBefore(ops, k + 1) == (!ClearsFlag(ops[0]) && NoneClearsBefore(ops[1..], k))
  {
  }

  /** The flag survives a sequence of calls exactly when it was raised before and no call
      cleared it: clearing resets the flag to false rather than restoring what it was. */
  lemma {:induction false} FinalFlagIsRaisedUnlessCleared(c: Codec, ops: seq<Op>, flag: bool)
    ensures FinalFlag(c, ops, flag) == (flag && NoneClearsBefore(ops, |ops|))
    decreases |ops|
  {
    if ops != [] {
      FinalFlagIsRaisedUnlessCleared(c, ops[1..], Step(c, ops[0], flag).flagAfter);
      NoneClearsShift(ops, |ops| - 1);
    }
  }

  /** The flag discipline over any sequence of calls: a write sees the flag raised exactly when
      its own call raised it, or when the flag was raised before the sequence and no earlier call
      has cleared it. */
  lemma {:induction false} FlagSeenByWrites(c: Codec, ops: seq<Op>, flag: bool)
    ensures forall i | 0 <= i < |ops| ::
              SeesFlag(Execute(c, ops, flag)[i], RaisesFlag(ops[i]) || (flag && NoneClearsBefore(ops, i)))
    decreases |ops|
  {
    if ops != [] {
      var first := Step(c, ops[0], flag);
      var rest := ops[1..];
      var runs := Execute(c, rest, first.flagAfter);
      var all := Execute(c, ops, flag);
      FlagSeenByWrites(c, rest, first.flagAfter);
      assert all == [first] + runs;
      forall i | 0 <= i < |ops|
        ensures SeesFlag(all[i], RaisesFlag(ops[i]) || (flag && NoneClearsBefore(ops, i)))
      {
        if i > 0 {
          assert all[i] == runs[i - 1];
          assert ops[i] == rest[i - 1];
          NoneClearsShift(ops, i - 1);
        }
      }
    }
  }

  /** From a cleared flag, as after construction of the library's state: the writes of a call see
      the flag raised exactly when that call is a generic one over an abstract or interface type,
      so nothing leaks into later calls, and the flag is cleared again at the end. */
  lemma FlagNeverLeaks(c: Codec, ops: seq<Op>)
    ensures !FinalFlag(c, ops, false)
    ensures forall i | 0 <= i < |ops| :: SeesFlag(Execute(c, ops, false)[i], RaisesFlag(ops[i]))
  {
    FinalFlagIsRaisedUnlessCleared(c, ops, false);
    FlagSeenByWrites(c, ops, false);
  }
}
