/**
 * The dirty flag as the persister sees it. Every successful store operation
 * sets the flag; the persister's periodic check atomically tests and clears
 * it and writes a snapshot only when it was set. A burst of changes between
 * two checks therefore costs one snapshot.
 */
module Scheduler {
  import opened Wrappers
  import opened Keys
  import Spec

  /** The store operations that can change the store. */
  datatype Op =
    | CreateOp(k: Key, v: Value)
    | UpdateOp(k: Key, v: Value)
    | GetOp(token: string)
    | RmOp(token: string)

  function Step(st: Spec.State, op: Op, parseFloat: string -> Option<Float>): Spec.Outcome
  {
    match op
    case CreateOp(k, v) => Spec.Create(st, k, v)
    case UpdateOp(k, v) => Spec.Update(st, k, v)
    case GetOp(token) =>
      var r := Spec.Get(st, token, parseFloat);
      Spec.Outcome(r.after, r.code)
    case RmOp(token) => Spec.Rm(st, token, parseFloat)
  }

  /** A status code that reports a change: 200 for a read that matched, 201, 204. */
  predicate Succeeded(code: int)
  {
    code == Spec.OK || code == Spec.Created || code == Spec.NoContent
  }

  /** Runs `ops` in order; returns the final state and each operation's status code. */
  function Run(st: Spec.State, ops: seq<Op>, parseFloat: string -> Option<Float>): (Spec.State, seq<int>)
    decreases |ops|
  {
    if ops == [] then (st, [])
    else
      var (st', codes) := Run(st, ops[..|ops| - 1], parseFloat);
      var r := Step(st', ops[|ops| - 1], parseFloat);
      (r.after, codes + [r.code])
  }

  /** An operation sets the flag exactly when it succeeds, and no operation clears it. */
  lemma StepDirty(st: Spec.State, op: Op, parseFloat: string -> Option<Float>)
    ensures var r := Step(st, op, parseFloat);
      r.after.dirty == (st.dirty || Succeeded(r.code))
  {
    match op
    case CreateOp(k, v) =>
    case UpdateOp(k, v) =>
    case GetOp(token) => Spec.GetContract(st, token, parseFloat);
    case RmOp(token) => Spec.RmContract(st, token, parseFloat);
  }

  lemma StepPreservesValid(st: Spec.State, op: Op, parseFloat: string -> Option<Float>)
    requires Spec.Valid(st)
    ensures Spec.Valid(Step(st, op, parseFloat).after)
  {
    match op
    case CreateOp(k, v) =>
    case UpdateOp(k, v) =>
    case GetOp(token) => Spec.GetPreservesValid(st, token, parseFloat);
    case RmOp(token) => Spec.RmPreservesValid(st, token, parseFloat);
  }

  /** The store invariant holds after any sequence of operations. */
  lemma {:induction false} RunPreservesValid(st: Spec.State, ops: seq<Op>, parseFloat: string -> Option<Float>)
    requires Spec.Valid(st)
    ensures Spec.Valid(Run(st, ops, parseFloat).0)
    decreases |ops|
  {
    if ops != [] {
      RunPreservesValid(st, ops[..|ops| - 1], parseFloat);
      StepPreservesValid(Run(st, ops[..|ops| - 1], parseFloat).0, ops[|ops| - 1], parseFloat);
    }
  }

  /** After a run the flag is set exactly when it was set before or some operation succeeded. */
  lemma {:induction false} RunDirty(st: Spec.State, ops: seq<Op>, parseFloat: string -> Option<Float>)
    ensures var (st', codes) := Run(st, ops, parseFloat);
      && |codes| == |ops|
      && st'.dirty == (st.dirty || exists i :: 0 <= i < |codes| && Succeeded(codes[i]))
    decreases |ops|
  {
    if ops != [] {
      var prefix := ops[..|ops| - 1];
      RunDirty(st, prefix, parseFloat);
      var (mid, codes) := Run(st, prefix, parseFloat);
      StepDirty(mid, ops[|ops| - 1], parseFloat);
      var r := Step(mid, ops[|ops| - 1], parseFloat);
      var all := codes + [r.code];
      assert forall i :: 0 <= i < |codes| ==> all[i] == codes[i];
      assert all[|codes|] == r.code;
    }
  }

  /**
   * Coalescing: after one check, any number of operations followed by two
   * checks yields at most one snapshot. The first check reports a change
   * exactly when some operation succeeded, the second reports nothing, and
   * neither check touches the tables.
   */
  lemma Coalescing(st: Spec.State, ops: seq<Op>, parseFloat: string -> Option<Float>)
    ensures var (clean, _) := Spec.TakeDirty(st);
      var (busy, codes) := Run(clean, ops, parseFloat);
      var (checked, first) := Spec.TakeDirty(busy);
      var (_, second) := Spec.TakeDirty(checked);
      && (first <==> exists i :: 0 <= i < |codes| && Succeeded(codes[i]))
      && !second
      && checked.cache == busy.cache && checked.count == busy.count
  {
    var (clean, _) := Spec.TakeDirty(st);
    RunDirty(clean, ops, parseFloat);
  }
}
