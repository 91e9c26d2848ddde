/** Reads and writes of one cell that are serialised by an outside lock: each
    `Set` and each `Get` runs whole, never overlapping another. A run is the
    order in which the lock let the operations through. */
module ProtectedTransaction {
  import opened RaceCells

  /** One whole operation on the cell. */
  datatype Op<T> = SetOp(value: T) | GetOp

  /** The value a serialised reader sees after `ops`: the last one written,
      or the initial value when nothing was written. */
  function LastWritten<T>(initial: T, ops: seq<Op<T>>): T
  {
    if ops == [] then initial
    else match ops[|ops| - 1]
      case SetOp(v) => v
      case GetOp => LastWritten(initial, ops[..|ops| - 1])
  }

  /** What the reads of a serialised run return, one entry per `GetOp`, in
      order: each sees the value last written before it. */
  function SerialOutcomes<T>(initial: T, ops: seq<Op<T>>): seq<Racey<T>>
  {
    if ops == [] then []
    else
      var before := ops[..|ops| - 1];
      match ops[|ops| - 1]
      case SetOp(_) => SerialOutcomes(initial, before)
      case GetOp => SerialOutcomes(initial, before) + [Consistent(LastWritten(initial, before))]
  }

  /** The number of reads in `ops`. */
  function CountGets<T>(ops: seq<Op<T>>): nat
  {
    if ops == [] then 0
    else CountGets(ops[..|ops| - 1]) + (if ops[|ops| - 1].GetOp? then 1 else 0)
  }

  /** Creates a cell holding `initial` and applies `ops` to it in order,
      collecting what each read returns. The cell stays coherent throughout,
      so no read reports an inconsistency. */
  method RunSerialized<T(==)>(initial: T, ops: seq<Op<T>>) returns (outcomes: seq<Racey<T>>)
    ensures outcomes == SerialOutcomes(initial, ops)
    ensures |outcomes| == CountGets(ops)
    ensures forall k :: 0 <= k < |outcomes| ==> outcomes[k] != Inconsistent
  {
    var cell := new RaceCell(initial);
    outcomes := [];
    var i := 0;
    while i < |ops|
      invariant 0 <= i <= |ops|
      invariant cell.localContents == LastWritten(initial, ops[..i])
      invariant cell.Coherent()
      invariant outcomes == SerialOutcomes(initial, ops[..i])
      invariant |outcomes| == CountGets(ops[..i])
      invariant forall k :: 0 <= k < |outcomes| ==> outcomes[k].Consistent?
    {
      assert ops[..i + 1][..i] == ops[..i];
      match ops[i] {
        case SetOp(v) =>
          cell.Set(v);
        case GetOp =>
          var r := cell.Get();
          outcomes := outcomes + [r];
      }
      i := i + 1;
    }
    assert ops[..|ops|] == ops;
  }

  /** The value last written is the initial value or one that some `SetOp`
      of the run wrote. */
  lemma {:induction false} LastWrittenWasWritten<T>(initial: T, ops: seq<Op<T>>)
    ensures LastWritten(initial, ops) == initial || SetOp(LastWritten(initial, ops)) in ops
  {
    if ops != [] {
      var before := ops[..|ops| - 1];
      assert ops == before + [ops[|ops| - 1]];
      if ops[|ops| - 1].GetOp? {
        LastWrittenWasWritten(initial, before);
      }
    }
  }

  /** Every value a serialised reader sees was the initial value or was
      written by the run: no value comes from nowhere. */
  lemma {:induction false} ObservedWasWritten<T>(initial: T, ops: seq<Op<T>>)
    ensures forall k :: 0 <= k < |SerialOutcomes(initial, ops)| ==>
      SerialOutcomes(initial, ops)[k].Consistent? &&
      (SerialOutcomes(initial, ops)[k].value == initial ||
       SetOp(SerialOutcomes(initial, ops)[k].value) in ops)
  {
    if ops != [] {
      var before := ops[..|ops| - 1];
      assert ops == before + [ops[|ops| - 1]];
      ObservedWasWritten(initial, before);
      LastWrittenWasWritten(initial, before);
    }
  }

  /** Once the writer's last `SetOp(v)` has gone through, every later read
      sees `v`: a reader waiting for the final value does see it. */
  lemma {:induction false} ReadsAfterLastWriteSeeIt<T>(initial: T, prefix: seq<Op<T>>, v: T, gets: seq<Op<T>>)
    requires forall j :: 0 <= j < |gets| ==> gets[j] == GetOp
    ensures LastWritten(initial, prefix + [SetOp(v)] + gets) == v
    ensures SerialOutcomes(initial, prefix + [SetOp(v)] + gets) ==
      SerialOutcomes(initial, prefix) + seq(|gets|, _ => Consistent(v))
  {
    var ops := prefix + [SetOp(v)] + gets;
    if gets == [] {
      assert ops[..|ops| - 1] == prefix;
    } else {
      var shorter := gets[..|gets| - 1];
      assert ops[..|ops| - 1] == prefix + [SetOp(v)] + shorter;
      ReadsAfterLastWriteSeeIt(initial, prefix, v, shorter);
      assert seq(|gets|, _ => Consistent(v)) == seq(|shorter|, _ => Consistent(v)) + [Consistent(v)];
    }
  }
}
