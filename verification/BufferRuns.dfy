/** Whole runs of append, retrieve and retrieveAll on one buffer. */
module BufferRuns {
  import opened Common
  import opened Buffers

  /** Each of k reallocations has at least doubled n bytes. */
  ghost predicate Geometric(n: nat, k: nat, capacity: nat) {
    n * Pow2(k) <= capacity
  }

  /** The queue after a run, the largest backlog and the number of reallocations. */
  datatype Run = Run(q: Queue, peak: nat, resizes: nat) {
    /** Memory and reallocations follow the backlog. */
    ghost predicate Sound(n: nat) {
      && q.layout.Valid() && |q.bytes| == q.layout.Readable()
      && |q.bytes| <= peak
      && q.layout.capacity <= Max(n, 4 * peak)
      && Geometric(n, resizes, q.layout.capacity)
    }

    function Then(op: Op): Option<Run>
      requires q.layout.Valid() && |q.bytes| == q.layout.Readable()
    {
      match Step(q, op)
      case None => None
      case Some(next) =>
        Some(Run(next, Max(peak, |next.bytes|),
                 if next.layout.capacity != q.layout.capacity then resizes + 1 else resizes))
    }
  }

  /** All operations of ops, in order, on a new buffer of n bytes; None if one breaks retrieve's demand. */
  function Exec(n: nat, ops: seq<Op>): (r: Option<Run>)
    ensures r.Some? ==> r.value.q.layout.Valid() && |r.value.q.bytes| == r.value.q.layout.Readable()
  {
    if ops == [] then Some(Run(Queue(Shape(n, 0, 0), ""), 0, 0))
    else
      match Exec(n, ops[..|ops| - 1])
      case None => None
      case Some(r) => r.Then(ops[|ops| - 1])
  }

  /** Everything that ops append, in order. */
  function PutIn(ops: seq<Op>): string {
    if ops == [] then ""
    else PutIn(ops[..|ops| - 1]) + (if ops[|ops| - 1].DoAppend? then ops[|ops| - 1].bytes else "")
  }

  /** How many of these bytes ops take out: an append none, a retrieve its length, a retrieveAll all that are left. */
  function TakenOut(ops: seq<Op>): nat {
    if ops == [] then 0
    else
      match ops[|ops| - 1]
      case DoAppend(_) => TakenOut(ops[..|ops| - 1])
      case DoRetrieve(len) => TakenOut(ops[..|ops| - 1]) + len
      case DoRetrieveAll => |PutIn(ops)|
  }

  /**
   A reallocation happens exactly when neither the free nor the discarded space is enough for len
   bytes; it at least doubles the vector, and at most quadruples the backlog it serves.
   */
  lemma GrowthIsGeometric(sh: Shape, len: nat)
    requires sh.Valid()
    ensures var r := sh.Appended(len);
            && (r.capacity != sh.capacity <==> sh.capacity - sh.write < len && sh.read < len)
            && (r.capacity == sh.capacity
                || (2 * sh.capacity <= r.capacity <= 4 * r.Readable()
                    && (r.capacity == 2 * sh.capacity || r.capacity == r.Readable())))
  {
  }

  lemma NoGrowthYet(n: nat)
    ensures Geometric(n, 0, n)
  {
  }

  lemma Doubling(n: nat, k: nat, before: nat, after: nat)
    requires Geometric(n, k, before) && 2 * before <= after
    ensures Geometric(n, k + 1, after)
  {
    assert n * Pow2(k + 1) == 2 * (n * Pow2(k));
  }

  lemma AppendKeepsSound(n: nat, r: Run, s: string)
    requires r.Sound(n)
    ensures r.Then(DoAppend(s)).value.Sound(n)
  {
    hide Shape.WithRoom, Shape.Appended, Geometric;
    var next := r.Then(DoAppend(s)).value;
    GrowthIsGeometric(r.q.layout, |s|);
    if next.resizes != r.resizes {
      Doubling(n, r.resizes, r.q.layout.capacity, next.q.layout.capacity);
    }
  }

  lemma StepKeepsSound(n: nat, r: Run, op: Op)
    requires r.Sound(n) && r.Then(op).Some?
    ensures r.Then(op).value.Sound(n)
  {
    hide Geometric;
    if op.DoAppend? {
      AppendKeepsSound(n, r, op.bytes);
    }
  }

  /** What a step does to the bytes held. */
  lemma StepHolds(r: Run, op: Op, put: string, out: nat)
    requires r.q.layout.Valid() && |r.q.bytes| == r.q.layout.Readable() && r.Then(op).Some?
    requires out <= |put| && r.q.bytes == put[out..]
    ensures var bytes := r.Then(op).value.q.bytes;
            match op
            case DoAppend(s) => bytes == (put + s)[out..]
            case DoRetrieve(len) => out + len <= |put| && bytes == put[out + len..]
            case DoRetrieveAll => bytes == put[|put|..]
  {
    match op {
      case DoAppend(s) => AppendBehind(put, s, out);
      case DoRetrieve(len) => DropTwice(put, out, len);
      case DoRetrieveAll =>
    }
  }

  lemma AppendBehind(put: string, s: string, out: nat)
    requires out <= |put|
    ensures (put + s)[out..] == put[out..] + s
  {
  }

  lemma DropTwice(put: string, out: nat, len: nat)
    requires out + len <= |put|
    ensures put[out..][len..] == put[out + len..]
  {
  }

  /**
   Over every run the buffer holds exactly what was appended behind what was taken out, and its
   memory and reallocations follow the backlog.
   */
  lemma {:induction false} BufferIsAQueue(n: nat, ops: seq<Op>)
    requires Exec(n, ops).Some?
    ensures Exec(n, ops).value.Sound(n)
    ensures TakenOut(ops) <= |PutIn(ops)| && Exec(n, ops).value.q.bytes == PutIn(ops)[TakenOut(ops)..]
  {
    hide Geometric;
    if ops == [] {
      NoGrowthYet(n);
    } else {
      var before, op := ops[..|ops| - 1], ops[|ops| - 1];
      BufferIsAQueue(n, before);
      StepKeepsSound(n, Exec(n, before).value, op);
      StepHolds(Exec(n, before).value, op, PutIn(before), TakenOut(before));
      assert !op.DoAppend? ==> PutIn(ops) == PutIn(before);
    }
  }

  /** Only a contract-breaking retrieve stops a run: everything else is always accepted. */
  lemma OnlyOverdrawnRetrieveFails(n: nat, ops: seq<Op>, op: Op)
    requires Exec(n, ops).Some?
    ensures Exec(n, ops + [op]).None? <==> op.DoRetrieve? && op.len > |PutIn(ops)| - TakenOut(ops)
  {
    BufferIsAQueue(n, ops);
    assert (ops + [op])[..|ops|] == ops;
  }
}
