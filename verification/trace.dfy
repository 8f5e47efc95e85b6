/**
 Histories of the cache engine: a sequence of atomic steps (writes and sweep
 passes), each dated by the instant it read from the clock. The main result
 says that a reader sees exactly what the last write to its key implies,
 provided every sweep after that write is dated no later than the read; such
 sweeps are invisible to it.
 */
module CacheTrace {
  import opened KvCache

  /** One atomic step of the engine. */
  datatype Op =
    | SetOp(key: Key, value: Value, now: Nanos)
    | SetTOp(key: Key, value: Value, duration: Nanos, now: Nanos)
    | CleanUpOp(now: Nanos)
  {
    predicate Writes(k: Key) {
      (SetOp? || SetTOp?) && key == k
    }
  }

  /** Performing one step. */
  function Apply(c: Cache, op: Op): (c': Cache)
  {
    match op
    case SetOp(k, v, now) => Set(c, k, v, now)
    case SetTOp(k, v, d, now) => SetT(c, k, v, d, now)
    case CleanUpOp(now) => Sweep(c, now)
  }

  /** The state after performing `ops` in order, starting from `c`. */
  function Run(c: Cache, ops: seq<Op>): (c': Cache)
    decreases |ops|
  {
    if ops == [] then c else Apply(Run(c, ops[..|ops| - 1]), ops[|ops| - 1])
  }

  /** The last write to a key in a history, or the absence of one. */
  datatype LastOp = NoWrite | WrittenBy(op: Op)

  /** The last write to `k` in `ops`, if there is one. */
  function LastWrite(ops: seq<Op>, k: Key): (w: LastOp)
    ensures w.WrittenBy? ==> w.op.Writes(k)
    ensures w.WrittenBy? <==> exists i :: 0 <= i < |ops| && ops[i].Writes(k)
    ensures w.WrittenBy? ==> exists i :: 0 <= i < |ops| && ops[i] == w.op && forall j :: i < j < |ops| ==> !ops[j].Writes(k)
    decreases |ops|
  {
    if ops == [] then NoWrite
    else if ops[|ops| - 1].Writes(k) then
      var w := WrittenBy(ops[|ops| - 1]);
      assert ops[|ops| - 1] == w.op;
      w
    else
      var w := LastWrite(ops[..|ops| - 1], k);
      assert forall i :: 0 <= i < |ops| - 1 ==> ops[..|ops| - 1][i] == ops[i];
      w
  }

  /** What a reader at instant `t` should see after the write `w`, stated
      from the write's arguments alone. */
  function Expected(w: Op, t: Nanos): (r: Lookup)
  {
    match w
    case SetOp(_, v, _) => Lookup(v, true)
    case SetTOp(_, v, d, now) => if t <= now + d then Lookup(v, true) else Miss
    case CleanUpOp(_) => Miss
  }

  /** Every sweep that follows the last write to `k` in `ops` (every sweep,
      when `k` was never written) is dated no later than `t`. */
  predicate SweepsSinceLastWrite(ops: seq<Op>, k: Key, t: Nanos)
    decreases |ops|
  {
    if ops == [] then true
    else
      var last := ops[|ops| - 1];
      last.Writes(k) || ((last.CleanUpOp? ==> last.now <= t) && SweepsSinceLastWrite(ops[..|ops| - 1], k, t))
  }

  /** Last write wins, and sweeps dated no later than the read are
      unobservable: the read returns what the last write to the key implies,
      or what the starting state held when the key was never written. */
  lemma {:induction false} ReadSeesLastWrite(c: Cache, ops: seq<Op>, k: Key, t: Nanos)
    requires SweepsSinceLastWrite(ops, k, t)
    ensures LastWrite(ops, k).NoWrite? ==> Get(Run(c, ops), k, t) == Get(c, k, t)
    ensures LastWrite(ops, k).WrittenBy? ==> Get(Run(c, ops), k, t) == Expected(LastWrite(ops, k).op, t)
    decreases |ops|
  {
    if ops != [] && !ops[|ops| - 1].Writes(k) {
      var prefix := ops[..|ops| - 1];
      assert forall i :: 0 <= i < |prefix| ==> prefix[i] == ops[i];
      ReadSeesLastWrite(c, prefix, k, t);
      match ops[|ops| - 1]
      case SetOp(_, _, _) =>
      case SetTOp(_, _, _, _) =>
      case CleanUpOp(swept) =>
        SweepUnobservable(Run(c, prefix), swept, k, t);
    }
  }

  /** From a fresh engine: a key nobody wrote reads as a miss after any
      history; a written key reads as its last write implies, provided every
      sweep after that write is dated no later than the read. */
  lemma FreshReadSeesLastWrite(ops: seq<Op>, k: Key, t: Nanos)
    requires LastWrite(ops, k).WrittenBy? ==> SweepsSinceLastWrite(ops, k, t)
    ensures Get(Run(Init(), ops), k, t) ==
              match LastWrite(ops, k)
              case NoWrite => Miss
              case WrittenBy(w) => Expected(w, t)
  {
    if LastWrite(ops, k).WrittenBy? {
      ReadSeesLastWrite(Init(), ops, k, t);
    } else if k in Run(Init(), ops).data {
      KeysComeFromWrites(Init(), ops, k);
    }
  }

  /** A history never invents keys: every key present was written by some step
      or already present at the start. */
  lemma {:induction false} KeysComeFromWrites(c: Cache, ops: seq<Op>, k: Key)
    requires k in Run(c, ops).data
    ensures k in c.data || exists i :: 0 <= i < |ops| && ops[i].Writes(k)
    decreases |ops|
  {
    if ops != [] {
      var prefix := ops[..|ops| - 1];
      var last := ops[|ops| - 1];
      if !last.Writes(k) {
        assert k in Run(c, prefix).data;
        KeysComeFromWrites(c, prefix, k);
        if !(k in c.data) {
          var i :| 0 <= i < |prefix| && prefix[i].Writes(k);
          assert ops[i] == prefix[i];
        }
      }
    }
  }

  /** A sweep dated after the read does no harm when a `Set` of the key
      follows it: the write replaces whatever the sweep left behind, whatever
      came before. A corollary of `ReadSeesLastWrite`, whose hypothesis holds
      because the last step writes the key. */
  lemma LateSweepThenRewrite(c: Cache, prefix: seq<Op>, swept: Nanos, k: Key, v: Value, n: Nanos, t: Nanos)
    ensures Get(Run(c, prefix + [CleanUpOp(swept), SetOp(k, v, n)]), k, t) == Lookup(v, true)
  {
    ReadSeesLastWrite(c, prefix + [CleanUpOp(swept), SetOp(k, v, n)], k, t);
  }
}
