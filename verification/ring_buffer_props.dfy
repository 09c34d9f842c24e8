/**
 * Properties of the ring buffer over whole runs of operations: the buffer
 * refines one FIFO queue of bytes per plane, and the offset defect of `read`.
 */
module RingBufferProperties {
  import opened Wrappers
  import opened JavaLang
  import opened RingBuffers

  /** One call a producer or consumer makes on the buffer. */
  datatype Op =
    | WriteOp(plane: int, data: seq<JByte>)   // write(plane, data)
    | ReadOp(plane: int, length: nat)         // read(plane, new byte[length])
    | ClearOp                                 // clear()

  /** What one call returns to its caller. */
  datatype Outcome =
    | Wrote(count: int)
    | ReadBytes(bytes: seq<JByte>)
    | Cleared

  predicate OpFits(op: Op, planes: int) {
    match op
    case WriteOp(plane, _) => 0 <= plane < planes
    case ReadOp(plane, _) => 0 <= plane < planes
    case ClearOp => true
  }

  predicate OpsFit(ops: seq<Op>, planes: int) {
    forall i :: 0 <= i < |ops| ==> OpFits(ops[i], planes)
  }

  /** One call on the concrete buffer. */
  function Step(rb: RingBuffer, op: Op): (r: (RingBuffer, Outcome))
    requires Valid(rb) && OpFits(op, |rb.planes|)
    ensures Valid(r.0) && r.0.capacity == rb.capacity && |r.0.planes| == |rb.planes|
  {
    match op
    case WriteOp(plane, data) =>
      var w := WriteAll(rb, plane, data).value;
      (w.buffer, Wrote(w.count))
    case ReadOp(plane, length) =>
      var rd := ReadAll(rb, plane, seq(length, _ => 0)).value;
      (rd.buffer, ReadBytes(rd.data[..rd.count]))
    case ClearOp =>
      (Clear(rb), Cleared)
  }

  /** A run of calls on the concrete buffer, with what each call returned. */
  function Run(rb: RingBuffer, ops: seq<Op>): (r: (RingBuffer, seq<Outcome>))
    requires Valid(rb) && OpsFit(ops, |rb.planes|)
    ensures Valid(r.0) && r.0.capacity == rb.capacity && |r.0.planes| == |rb.planes|
    ensures |r.1| == |ops|
    decreases |ops|
  {
    if |ops| == 0 then (rb, [])
    else
      var (rb', out) := Step(rb, ops[0]);
      var (rb'', outs) := Run(rb', ops[1..]);
      (rb'', [out] + outs)
  }

  /** The abstract state: one queue of unread bytes per plane. */
  function Queues(rb: RingBuffer): (qs: seq<seq<JByte>>)
    requires Valid(rb)
    ensures |qs| == |rb.planes|
    ensures Bounded(qs, rb.capacity)
  {
    seq(|rb.planes|, i requires 0 <= i < |rb.planes| => Contents(rb.planes[i]))
  }

  predicate Bounded(qs: seq<seq<JByte>>, capacity: int) {
    capacity >= 0 && forall i :: 0 <= i < |qs| ==> |qs[i]| <= capacity
  }

  /** One call on bounded FIFO queues: a write appends what fits, a read takes from the front. */
  function QueueStep(qs: seq<seq<JByte>>, capacity: int, op: Op): (r: (seq<seq<JByte>>, Outcome))
    requires Bounded(qs, capacity) && OpFits(op, |qs|)
    ensures |r.0| == |qs| && Bounded(r.0, capacity)
  {
    match op
    case WriteOp(plane, data) =>
      var q := qs[plane];
      var n := Min(|data|, capacity - |q|);
      (qs[plane := q + data[..n]], Wrote(n))
    case ReadOp(plane, length) =>
      var q := qs[plane];
      var n := Min(length, |q|);
      (qs[plane := q[n..]], ReadBytes(q[..n]))
    case ClearOp =>
      (seq(|qs|, _ => []), Cleared)
  }

  function QueueRun(qs: seq<seq<JByte>>, capacity: int, ops: seq<Op>): (r: (seq<seq<JByte>>, seq<Outcome>))
    requires Bounded(qs, capacity) && OpsFit(ops, |qs|)
    ensures |r.0| == |qs| && Bounded(r.0, capacity)
    decreases |ops|
  {
    if |ops| == 0 then (qs, [])
    else
      var (qs', out) := QueueStep(qs, capacity, ops[0]);
      var (qs'', outs) := QueueRun(qs', capacity, ops[1..]);
      (qs'', [out] + outs)
  }

  /** One call on the buffer is the same call on its queues. */
  lemma StepRefines(rb: RingBuffer, op: Op)
    requires Valid(rb) && OpFits(op, |rb.planes|)
    ensures var (rb', out) := Step(rb, op);
            var (qs', qout) := QueueStep(Queues(rb), rb.capacity, op);
            Queues(rb') == qs' && out == qout
  {
    var (rb', out) := Step(rb, op);
    var (qs', qout) := QueueStep(Queues(rb), rb.capacity, op);
    match op {
      case WriteOp(plane, data) =>
        var p := rb.planes[plane];
        assert p.bytesToWrite == rb.capacity - |Contents(p)|;
        assert Queues(rb') == qs';
      case ReadOp(plane, length) =>
        assert Queues(rb') == qs';
      case ClearOp =>
        assert Queues(rb') == qs';
    }
  }

  /**
   * The ring buffer refines per-plane FIFO queues: any run of writes, reads
   * (into fresh arrays from index 0) and clears returns exactly what the same
   * run on bounded queues returns, and leaves exactly their contents unread.
   */
  lemma {:induction false} RunRefines(rb: RingBuffer, ops: seq<Op>)
    requires Valid(rb) && OpsFit(ops, |rb.planes|)
    ensures var (rb', outs) := Run(rb, ops);
            var (qs', qouts) := QueueRun(Queues(rb), rb.capacity, ops);
            Queues(rb') == qs' && outs == qouts
    decreases |ops|
  {
    if |ops| > 0 {
      StepRefines(rb, ops[0]);
      var (rb1, _) := Step(rb, ops[0]);
      assert OpsFit(ops[1..], |rb1.planes|);
      RunRefines(rb1, ops[1..]);
    }
  }

  /** Writing `a` and then reading everything back from index 0 yields the old bytes, then `a`. */
  lemma {:induction false} WriteThenReadInOrder(rb: RingBuffer, plane: int, a: seq<JByte>, dst: seq<JByte>)
    requires Valid(rb) && 0 <= plane < |rb.planes|
    requires |a| <= rb.planes[plane].bytesToWrite
    requires |dst| == rb.planes[plane].bytesToRead + |a|
    ensures var w := WriteAll(rb, plane, a).value;
            var rd := ReadAll(w.buffer, plane, dst).value;
            && w.count == |a|
            && rd.count == |dst|
            && rd.data == Contents(rb.planes[plane]) + a
            && Contents(rd.buffer.planes[plane]) == []
  {
    var w := WriteAll(rb, plane, a).value;
    assert a[..w.count] == a;
    var rd := ReadAll(w.buffer, plane, dst).value;
    assert rd.data == rd.data[..rd.count];
  }

  /** `clear` twice is `clear` once, and afterwards nothing is available. */
  lemma ClearIdempotent(rb: RingBuffer)
    requires Valid(rb)
    ensures Clear(Clear(rb)) == Clear(rb)
    ensures |rb.planes| > 0 ==> Available(Clear(rb)) == Success(0)
  {
  }

  /** Writes and reads on one plane never change what `available()` sees on another. */
  lemma AvailableSeesPlaneZeroOnly(rb: RingBuffer, plane: int, data: seq<JByte>)
    requires Valid(rb) && 0 < plane < |rb.planes|
    ensures Available(WriteAll(rb, plane, data).value.buffer) == Available(rb)
    ensures Available(ReadAll(rb, plane, data).value.buffer) == Available(rb)
  {
  }

  /** The run of the concrete scenario below. */
  function ScenarioOps(): seq<Op> {
    [WriteOp(0, [1, 2, 3, 4, 5, 6, 7, 8]), WriteOp(0, [9, 10, 11]), ReadOp(0, 10),
     WriteOp(0, [20, 21, 22, 23]), ReadOp(0, 4)]
  }

  function ScenarioOutcomes(): seq<Outcome> {
    [Wrote(8), Wrote(2), ReadBytes([1, 2, 3, 4, 5, 6, 7, 8, 9, 10]), Wrote(4), ReadBytes([20, 21, 22, 23])]
  }

  /** The five steps of the scenario, one at a time, on a capacity-10 queue. */
  lemma ScenarioSteps()
    ensures QueueStep([[]], 10, ScenarioOps()[0]) == ([[1, 2, 3, 4, 5, 6, 7, 8]], Wrote(8))
    ensures QueueStep([[1, 2, 3, 4, 5, 6, 7, 8]], 10, ScenarioOps()[1]) == ([[1, 2, 3, 4, 5, 6, 7, 8, 9, 10]], Wrote(2))
    ensures QueueStep([[1, 2, 3, 4, 5, 6, 7, 8, 9, 10]], 10, ScenarioOps()[2]) == ([[]], ReadBytes([1, 2, 3, 4, 5, 6, 7, 8, 9, 10]))
    ensures QueueStep([[]], 10, ScenarioOps()[3]) == ([[20, 21, 22, 23]], Wrote(4))
    ensures QueueStep([[20, 21, 22, 23]], 10, ScenarioOps()[4]) == ([[]], ReadBytes([20, 21, 22, 23]))
  {
    var ops := ScenarioOps();
    var empty: seq<seq<JByte>> := [[]];
    var qs1: seq<seq<JByte>> := [[1, 2, 3, 4, 5, 6, 7, 8]];
    var qs2: seq<seq<JByte>> := [[1, 2, 3, 4, 5, 6, 7, 8, 9, 10]];
    var qs4: seq<seq<JByte>> := [[20, 21, 22, 23]];
    var none: seq<JByte> := [];
    assert empty[0] == none;
    assert ops[0].data[..8] == qs1[0];
    assert none + qs1[0] == qs1[0];
    assert empty[0 := qs1[0]] == qs1;
    assert qs1[0] + ops[1].data[..2] == qs2[0];
    assert qs1[0 := qs2[0]] == qs2;
    assert |qs2[0]| == 10 && qs2[0][10..] == none;
    assert qs2[0][..10] == qs2[0];
    assert qs2[0 := none] == empty;
    assert ops[3].data[..4] == qs4[0];
    assert none + qs4[0] == qs4[0];
    assert empty[0 := qs4[0]] == qs4;
    assert |qs4[0]| == 4 && qs4[0][4..] == none;
    assert qs4[0][..4] == qs4[0];
    assert qs4[0 := none] == empty;
  }

  lemma ScenarioOnQueues()
    ensures OpsFit(ScenarioOps(), 1)
    ensures QueueRun([[]], 10, ScenarioOps()) == ([[]], ScenarioOutcomes())
  {
    var ops := ScenarioOps();
    var empty: seq<seq<JByte>> := [[]];
    var qs1: seq<seq<JByte>> := [[1, 2, 3, 4, 5, 6, 7, 8]];
    var qs2: seq<seq<JByte>> := [[1, 2, 3, 4, 5, 6, 7, 8, 9, 10]];
    var qs4: seq<seq<JByte>> := [[20, 21, 22, 23]];
    assert OpsFit(ops, 1);
    ScenarioSteps();
    var o := ScenarioOutcomes();
    assert ops[4..][0] == ops[4] && ops[4..][1..] == [];
    assert QueueRun(empty, 10, []) == (empty, []);
    assert o[4..] == [o[4]] + [];
    assert QueueRun(qs4, 10, ops[4..]) == (empty, o[4..]);
    assert ops[3..][0] == ops[3] && ops[3..][1..] == ops[4..];
    assert o[3..] == [o[3]] + o[4..];
    assert QueueRun(empty, 10, ops[3..]) == (empty, o[3..]);
    assert ops[2..][0] == ops[2] && ops[2..][1..] == ops[3..];
    assert o[2..] == [o[2]] + o[3..];
    assert QueueRun(qs2, 10, ops[2..]) == (empty, o[2..]);
    assert ops[1..][0] == ops[1] && ops[1..][1..] == ops[2..];
    assert o[1..] == [o[1]] + o[2..];
    assert QueueRun(qs1, 10, ops[1..]) == (empty, o[1..]);
    assert o == [o[0]] + o[1..];
  }

  /**
   * A concrete run: capacity 10, one plane; write
   * 1..8 (8 written), write 9..11 (2 written), read 10 (1..10), write
   * 20..23 (4 written, wrapping), read 4 (20..23).
   */
  lemma CapacityTenScenario()
    ensures Create(10, 1).Success?
    ensures OpsFit(ScenarioOps(), 1)
    ensures var (rb', outs) := Run(Create(10, 1).value, ScenarioOps());
            outs == ScenarioOutcomes() && Available(rb') == Success(0)
  {
    var rb := Create(10, 1).value;
    ScenarioOnQueues();
    RunRefines(rb, ScenarioOps());
    assert Queues(rb) == [[]];
    var (rb', outs) := Run(rb, ScenarioOps());
    assert Queues(rb')[0] == [];
  }

  /**
   * The buffer the offset defect shows on, reached by ordinary calls:
   * capacity 4; write 1,2,3; read 2; write 4,5 (this write wraps).
   */
  function DefectSetup(): Result<RingBuffer, Error> {
    match Create(4, 1)
    case Failure(e) => Failure(e)
    case Success(rb0) =>
      match Write(rb0, 0, [1, 2, 3], 0, 3)
      case Failure(e) => Failure(e)
      case Success(w1) =>
        match Read(w1.buffer, 0, [0, 0], 0, 2)
        case Failure(e) => Failure(e)
        case Success(r1) =>
          match Write(r1.buffer, 0, [4, 5], 0, 2)
          case Failure(e) => Failure(e)
          case Success(w2) => Success(w2.buffer)
  }

  /** After the setup the unread bytes are 3,4,5 and the read cursor stands at 2. */
  lemma DefectSetupState()
    ensures DefectSetup().Success?
    ensures var rb := DefectSetup().value;
            && Valid(rb) && |rb.planes| == 1 && rb.capacity == 4
            && Contents(rb.planes[0]) == [3, 4, 5]
            && rb.planes[0].readPointer == 2
  {
    var rb0 := Create(4, 1).value;
    var none: seq<JByte> := [];
    assert Contents(rb0.planes[0]) == none;
    var w1 := Write(rb0, 0, [1, 2, 3], 0, 3).value.buffer;
    var three: seq<JByte> := [1, 2, 3];
    assert three[0..3] == three;
    assert Contents(w1.planes[0]) == three;
    var r1 := Read(w1, 0, [0, 0], 0, 2).value.buffer;
    assert Contents(r1.planes[0]) == [3];
    var w2 := Write(r1, 0, [4, 5], 0, 2).value.buffer;
    var two: seq<JByte> := [4, 5];
    assert two[0..2] == two;
    assert Contents(w2.planes[0]) == [3] + two;
  }

  /**
   * The offset defect of `read`. On the setup buffer a read of 3 bytes
   * wraps after 2. Read into a zeroed 4-byte array at offset 1, the second
   * segment lands at index 2 instead of 3: the array becomes 0,3,5,0 where
   * in-order delivery, which `ReadCorrected` gives, is 0,3,4,5.
   */
  lemma ReadWithOffsetMisorders()
    ensures DefectSetup().Success?
    ensures var rb := DefectSetup().value;
            var rd := Read(rb, 0, [0, 0, 0, 0], 1, 3);
            var fixed := ReadCorrected(rb, 0, [0, 0, 0, 0], 1, 3);
            && rd.Success? && rd.value.count == 3 && rd.value.data == [0, 3, 5, 0]
            && fixed.Success? && fixed.value.data == [0, 3, 4, 5]
  {
    DefectSetupState();
    var rb := DefectSetup().value;
    var c: seq<JByte> := [3, 4, 5];
    assert ReadWraps(rb.planes[0], 3);
    assert c[..2] == [3, 4] && c[2..3] == [5] && c[..3] == c;
  }
}
