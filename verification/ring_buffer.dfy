/**
 * The multi-plane audio ring buffer of RingBuffer.java.
 *
 * Each plane owns a fixed-capacity byte store with its own read and write
 * cursors and its own counts of unread and free bytes. The Java class keeps
 * these in parallel arrays indexed by plane; here a plane is one record and
 * the buffer is a sequence of them. Every operation is a pure function that
 * returns the new buffer, and `Read` also returns the caller's destination
 * array as it stands after the call.
 *
 * The abstraction is `Contents`: the unread bytes of a plane, oldest first.
 * `Write` appends to it, `Read` removes a prefix of it.
 */
module RingBuffers {
  import opened Wrappers
  import opened JavaLang

  /** The exceptions the Java class throws. */
  datatype Error =
    | IllegalArgument      // capacity < 2
    | IndexOutOfBounds     // bad offset/length, or a plane index outside the arrays
    | NegativeArraySize    // a negative plane count
    | BufferUnderflow      // ByteBuffer.get past the source buffer's remaining bytes

  /** One plane: its storage and its entries of the four cursor/counter arrays. */
  datatype Plane = Plane(
    store: seq<JByte>,
    readPointer: int,
    writePointer: int,
    bytesToRead: int,
    bytesToWrite: int)

  datatype RingBuffer = RingBuffer(capacity: int, planes: seq<Plane>)

  /** The capacity the one-argument constructor uses. */
  const DefaultCapacity: int := 1024

  /** The per-plane invariant every operation keeps. */
  predicate PlaneInv(p: Plane, capacity: int) {
    && capacity >= 2
    && |p.store| == capacity
    && 0 <= p.bytesToRead <= capacity
    && 0 <= p.bytesToWrite <= capacity
    && p.bytesToRead + p.bytesToWrite == capacity
    && 0 <= p.readPointer < capacity
    && 0 <= p.writePointer < capacity
    && p.writePointer == (p.readPointer + p.bytesToRead) % capacity
  }

  predicate Valid(rb: RingBuffer) {
    && rb.capacity >= 2
    && forall i :: 0 <= i < |rb.planes| ==> PlaneInv(rb.planes[i], rb.capacity)
  }

  /** The buffer with plane `i` replaced by `q`, which keeps the invariant. */
  function WithPlane(rb: RingBuffer, i: int, q: Plane): (b: RingBuffer)
    requires Valid(rb) && 0 <= i < |rb.planes|
    requires PlaneInv(q, rb.capacity)
    ensures Valid(b) && b.capacity == rb.capacity && |b.planes| == |rb.planes|
    ensures b.planes[i] == q
    ensures forall j :: 0 <= j < |rb.planes| && j != i ==> b.planes[j] == rb.planes[j]
  {
    rb.(planes := rb.planes[i := q])
  }

  /** The unread bytes of a plane in the order they were written. */
  function Contents(p: Plane): (q: seq<JByte>)
    requires PlaneInv(p, |p.store|)
    ensures |q| == p.bytesToRead
  {
    seq(p.bytesToRead, i requires 0 <= i < p.bytesToRead => p.store[(p.readPointer + i) % |p.store|])
  }

  /**
   * `src` laid over `target` from index `pos` on: what a ByteBuffer `put` does
   * to the store and what a ByteBuffer `get` does to the destination array.
   */
  function Put<T>(target: seq<T>, pos: int, src: seq<T>): (r: seq<T>)
    requires 0 <= pos && pos + |src| <= |target|
    ensures |r| == |target|
    ensures forall i :: 0 <= i < |r| ==> r[i] == if pos <= i < pos + |src| then src[i - pos] else target[i]
  {
    target[..pos] + src + target[pos + |src|..]
  }

  /** Laying nothing over a sequence leaves it as it was. */
  lemma PutNothing<T>(target: seq<T>, pos: int, src: seq<T>)
    requires 0 <= pos <= |target| && src == []
    ensures Put(target, pos, src) == target
  {
  }

  /** The guard both transfer methods start with. */
  predicate BadRange(dataLength: int, offset: int, length: int) {
    offset < 0 || length < 0 || length > dataLength - offset
  }

  /** A cursor plus a distance below twice the capacity, reduced modulo the capacity. */
  lemma ModOnce(a: int, capacity: int)
    requires capacity > 0 && 0 <= a < 2 * capacity
    ensures a % capacity == if a < capacity then a else a - capacity
  {
  }

  // ---------------------------------------------------------------------------
  // Construction, clear, available
  // ---------------------------------------------------------------------------

  function EmptyPlane(capacity: int): (p: Plane)
    requires capacity >= 2
    ensures PlaneInv(p, capacity)
    ensures Contents(p) == []
  {
    Plane(seq(capacity, _ => 0), 0, 0, 0, capacity)
  }

  /** `new RingBuffer(capacity, planes)`. */
  function Create(capacity: int, planes: int): (r: Result<RingBuffer, Error>)
    ensures capacity < 2 <==> r == Failure(IllegalArgument)
    ensures capacity >= 2 && planes < 0 <==> r == Failure(NegativeArraySize)
    ensures r.Success? ==>
      && Valid(r.value)
      && r.value.capacity == capacity
      && |r.value.planes| == planes
      && forall i :: 0 <= i < planes ==>
           var p := r.value.planes[i];
           && p.readPointer == 0 && p.writePointer == 0
           && p.bytesToRead == 0 && p.bytesToWrite == capacity
           && Contents(p) == []
  {
    if capacity < 2 then Failure(IllegalArgument)
    else if planes < 0 then Failure(NegativeArraySize)
    else Success(RingBuffer(capacity, seq(planes, _ => EmptyPlane(capacity))))
  }

  /** `new RingBuffer(planes)`. */
  function CreateDefault(planes: int): (r: Result<RingBuffer, Error>)
    ensures planes < 0 <==> r == Failure(NegativeArraySize)
    ensures r.Success? ==>
      && Valid(r.value)
      && r.value.capacity == DefaultCapacity
      && |r.value.planes| == planes
      && forall i :: 0 <= i < planes ==> Contents(r.value.planes[i]) == []
  {
    Create(DefaultCapacity, planes)
  }

  /** `clear()`: cursors and counters reset, storage kept. */
  function Clear(rb: RingBuffer): (r: RingBuffer)
    requires Valid(rb)
    ensures Valid(r)
    ensures r.capacity == rb.capacity && |r.planes| == |rb.planes|
    ensures forall i :: 0 <= i < |r.planes| ==>
      && Contents(r.planes[i]) == []
      && r.planes[i].bytesToWrite == rb.capacity
      && r.planes[i].readPointer == 0 && r.planes[i].writePointer == 0
      && r.planes[i].store == rb.planes[i].store
  {
    RingBuffer(rb.capacity,
      seq(|rb.planes|, i requires 0 <= i < |rb.planes| =>
        rb.planes[i].(readPointer := 0, writePointer := 0, bytesToRead := 0, bytesToWrite := |rb.planes[i].store|)))
  }

  /** `available()`: the unread count of plane 0 only; no plane 0, no answer. */
  function Available(rb: RingBuffer): (r: Result<int, Error>)
    requires Valid(rb)
    ensures |rb.planes| == 0 <==> r == Failure(IndexOutOfBounds)
    ensures |rb.planes| > 0 ==> r == Success(|Contents(rb.planes[0])|)
  {
    if |rb.planes| == 0 then Failure(IndexOutOfBounds) else Success(rb.planes[0].bytesToRead)
  }

  // ---------------------------------------------------------------------------
  // Write
  // ---------------------------------------------------------------------------

  datatype WriteResult = WriteResult(buffer: RingBuffer, count: int)

  /** The plane after a write of the (already clamped) `chunk`, as the Java code moves it. */
  function WritePlane(p: Plane, chunk: seq<JByte>): (p': Plane)
    requires PlaneInv(p, |p.store|)
    requires 0 < |chunk| <= p.bytesToWrite
    ensures PlaneInv(p', |p.store|)
    ensures p'.readPointer == p.readPointer
    ensures Contents(p') == Contents(p) + chunk
  {
    var capacity := |p.store|;
    var n := |chunk|;
    var partLength := capacity - p.writePointer;
    var moved :=
      if partLength > n then
        p.(store := Put(p.store, p.writePointer, chunk), writePointer := p.writePointer + n)
      else
        var first := Put(p.store, p.writePointer, chunk[..partLength]);
        p.(store := Put(first, 0, chunk[partLength..]), writePointer := n - partLength);
    var p' := moved.(bytesToRead := p.bytesToRead + n, bytesToWrite := p.bytesToWrite - n);
    WriteAppends(p, chunk, p');
    p'
  }

  /** `p'` is `p` after the one or two puts and the counter moves of a write of `chunk`. */
  predicate StoredAsWritten(p: Plane, chunk: seq<JByte>, p': Plane)
    requires PlaneInv(p, |p.store|)
    requires 0 < |chunk| <= p.bytesToWrite
  {
    var capacity := |p.store|;
    var n := |chunk|;
    var partLength := capacity - p.writePointer;
    && |p'.store| == capacity
    && p'.readPointer == p.readPointer
    && p'.bytesToRead == p.bytesToRead + n
    && p'.bytesToWrite == p.bytesToWrite - n
    && (partLength > n ==>
          p'.store == Put(p.store, p.writePointer, chunk) && p'.writePointer == p.writePointer + n)
    && (partLength <= n ==>
          p'.store == Put(Put(p.store, p.writePointer, chunk[..partLength]), 0, chunk[partLength..])
          && p'.writePointer == n - partLength)
  }

  /** Both branches of the wrap split keep the invariant and append the chunk to the unread bytes. */
  lemma WriteAppends(p: Plane, chunk: seq<JByte>, p': Plane)
    requires PlaneInv(p, |p.store|)
    requires 0 < |chunk| <= p.bytesToWrite
    requires StoredAsWritten(p, chunk, p')
    ensures PlaneInv(p', |p.store|)
    ensures Contents(p') == Contents(p) + chunk
  {
    var capacity := |p.store|;
    var rp, btr, n := p.readPointer, p.bytesToRead, |chunk|;
    ModOnce(rp + btr, capacity);
    ModOnce(rp + btr + n, capacity);
    assert PlaneInv(p', capacity);
    var c, c' := Contents(p), Contents(p');
    forall i | 0 <= i < btr + n
      ensures c'[i] == (c + chunk)[i]
    {
      AppendedSlot(p, chunk, p', i);
    }
  }

  /** Queue position `i` of the written plane: an old unread byte below `bytesToRead`, a chunk byte above. */
  lemma AppendedSlot(p: Plane, chunk: seq<JByte>, p': Plane, i: int)
    requires PlaneInv(p, |p.store|)
    requires 0 < |chunk| <= p.bytesToWrite
    requires StoredAsWritten(p, chunk, p')
    requires 0 <= i < p.bytesToRead + |chunk|
    ensures p'.store[(p.readPointer + i) % |p.store|]
            == if i < p.bytesToRead then p.store[(p.readPointer + i) % |p.store|] else chunk[i - p.bytesToRead]
  {
    var capacity := |p.store|;
    ModOnce(p.readPointer + p.bytesToRead, capacity);
    ModOnce(p.readPointer + i, capacity);
  }

  /** `write(plane, data, offset, length)`. */
  function Write(rb: RingBuffer, plane: int, data: seq<JByte>, offset: int, length: int): (r: Result<WriteResult, Error>)
    requires Valid(rb)
    ensures r.Failure? <==> BadRange(|data|, offset, length) || !(0 <= plane < |rb.planes|)
    ensures r.Failure? ==> r.error == IndexOutOfBounds
    ensures r.Success? ==>
      var p, b, n := rb.planes[plane], r.value.buffer, r.value.count;
      && Valid(b)
      && b.capacity == rb.capacity
      && |b.planes| == |rb.planes|
      && n == Min(length, p.bytesToWrite)
      && b.planes[plane].bytesToWrite == p.bytesToWrite - n
      && b.planes[plane].readPointer == p.readPointer
      && Contents(b.planes[plane]) == Contents(p) + data[offset..offset + n]
      && (n == 0 ==> b == rb)
      && (forall j :: 0 <= j < |rb.planes| && j != plane ==> b.planes[j] == rb.planes[j])
  {
    if BadRange(|data|, offset, length) || !(0 <= plane < |rb.planes|) then
      Failure(IndexOutOfBounds)
    else
      var p := rb.planes[plane];
      if p.bytesToWrite == 0 || length == 0 then
        // a full plane returns at once; an empty write moves nothing
        Success(WriteResult(rb, 0))
      else
        var n := if p.bytesToWrite < length then p.bytesToWrite else length;
        Success(WriteResult(WithPlane(rb, plane, WritePlane(p, data[offset..offset + n])), n))
  }

  /** `write(plane, data)`: the whole array. */
  function WriteAll(rb: RingBuffer, plane: int, data: seq<JByte>): (r: Result<WriteResult, Error>)
    requires Valid(rb)
    ensures r.Failure? <==> !(0 <= plane < |rb.planes|)
    ensures r.Success? ==>
      var p, b, n := rb.planes[plane], r.value.buffer, r.value.count;
      && Valid(b)
      && b.capacity == rb.capacity
      && |b.planes| == |rb.planes|
      && n == Min(|data|, p.bytesToWrite)
      && Contents(b.planes[plane]) == Contents(p) + data[..n]
      && (forall j :: 0 <= j < |rb.planes| && j != plane ==> b.planes[j] == rb.planes[j])
  {
    Write(rb, plane, data, 0, |data|)
  }

  /** A java.nio.ByteBuffer handed to `write(plane, ByteBuffer)`. */
  datatype ByteBufferView = ByteBufferView(content: seq<JByte>, position: int, limit: int)

  predicate ViewValid(v: ByteBufferView) {
    0 <= v.position <= v.limit <= |v.content|
  }

  /**
   * `write(plane, ByteBuffer)`: copies `limit()` bytes out of the source
   * buffer (which fails unless its position is 0) and writes that array.
   * The source buffer as the call leaves it is returned beside the
   * outcome: a failed copy leaves it untouched, a successful one moves its
   * position to its limit even when the write then fails on the plane.
   */
  function WriteBuffer(rb: RingBuffer, plane: int, src: ByteBufferView): (r: (Result<WriteResult, Error>, ByteBufferView))
    requires Valid(rb)
    requires ViewValid(src)
    ensures src.position > 0 <==> r.0 == Failure(BufferUnderflow)
    ensures r.1 == if src.position > 0 then src else src.(position := src.limit)
    ensures src.position == 0 ==> (r.0.Success? <==> 0 <= plane < |rb.planes|)
    ensures src.position == 0 && !(0 <= plane < |rb.planes|) ==> r.0 == Failure(IndexOutOfBounds)
    ensures r.0.Success? ==>
      var p, b, n := rb.planes[plane], r.0.value.buffer, r.0.value.count;
      && Valid(b)
      && b.capacity == rb.capacity
      && |b.planes| == |rb.planes|
      && n == Min(src.limit, p.bytesToWrite)
      && Contents(b.planes[plane]) == Contents(p) + src.content[..n]
      && (forall j :: 0 <= j < |rb.planes| && j != plane ==> b.planes[j] == rb.planes[j])
  {
    if src.limit - src.position < src.limit then
      (Failure(BufferUnderflow), src)
    else
      var data := src.content[..src.limit];
      var drained := src.(position := src.limit);
      var w := WriteAll(rb, plane, data);
      if w.Failure? then (Failure(w.error), drained)
      else
        assert data[..w.value.count] == src.content[..w.value.count];
        (Success(w.value), drained)
  }

  // ---------------------------------------------------------------------------
  // Read
  // ---------------------------------------------------------------------------

  datatype ReadResult = ReadResult(buffer: RingBuffer, data: seq<JByte>, count: int)

  /** The plane after `n` bytes have been taken from it. */
  function ReadPlane(p: Plane, n: int): (p': Plane)
    requires PlaneInv(p, |p.store|)
    requires 0 < n <= p.bytesToRead
    ensures PlaneInv(p', |p.store|)
    ensures p'.store == p.store
    ensures p'.readPointer == (p.readPointer + n) % |p.store|
    ensures Contents(p') == Contents(p)[n..]
    ensures p'.bytesToWrite == p.bytesToWrite + n
  {
    var capacity := |p.store|;
    var partLength := capacity - p.readPointer;
    var p' := p.(readPointer := if partLength > n then p.readPointer + n else n - partLength,
                 bytesToRead := p.bytesToRead - n,
                 bytesToWrite := p.bytesToWrite + n);
    ReadRemoves(p, n, p');
    ModOnce(p.readPointer + n, capacity);
    p'
  }

  lemma ReadRemoves(p: Plane, n: int, p': Plane)
    requires PlaneInv(p, |p.store|)
    requires 0 < n <= p.bytesToRead
    requires var capacity := |p.store|;
             var partLength := capacity - p.readPointer;
             && p' == p.(readPointer := if partLength > n then p.readPointer + n else n - partLength,
                         bytesToRead := p.bytesToRead - n,
                         bytesToWrite := p.bytesToWrite + n)
    ensures PlaneInv(p', |p.store|)
    ensures Contents(p') == Contents(p)[n..]
  {
    var capacity := |p.store|;
    var rp, btr := p.readPointer, p.bytesToRead;
    ModOnce(rp + btr, capacity);
    ModOnce(rp + n, capacity);
    ModOnce(p'.readPointer + p'.bytesToRead, capacity);
    assert PlaneInv(p', capacity);
    var c, c' := Contents(p), Contents(p');
    forall i | 0 <= i < btr - n
      ensures c'[i] == c[n + i]
    {
      ModOnce(rp + n + i, capacity);
      ModOnce(p'.readPointer + i, capacity);
    }
  }

  /** The `n` oldest bytes as the two ByteBuffer gets take them out of the store. */
  lemma OldestBytes(p: Plane, n: int)
    requires PlaneInv(p, |p.store|)
    requires 0 < n <= p.bytesToRead
    ensures var partLength := |p.store| - p.readPointer;
            partLength > n ==> Contents(p)[..n] == p.store[p.readPointer..p.readPointer + n]
    ensures var partLength := |p.store| - p.readPointer;
            partLength <= n ==>
              && Contents(p)[..partLength] == p.store[p.readPointer..]
              && Contents(p)[partLength..n] == p.store[..n - partLength]
  {
    var capacity := |p.store|;
    var c := Contents(p);
    forall i | 0 <= i < n
      ensures c[i] == p.store[if p.readPointer + i < capacity then p.readPointer + i else p.readPointer + i - capacity]
    {
      ModOnce(p.readPointer + i, capacity);
    }
  }

  /** True when a read of `n` bytes would need the second, wrapped-around get to deliver data. */
  predicate ReadWraps(p: Plane, n: int) {
    p.readPointer + n > |p.store|
  }

  /**
   * The destination array after the two ByteBuffer gets of `read`, exactly
   * as written: the second get starts at `partLength`, whatever the offset.
   */
  function GetInto(p: Plane, n: int, data: seq<JByte>, offset: int): (out: seq<JByte>)
    requires PlaneInv(p, |p.store|)
    requires 0 < n <= p.bytesToRead
    requires 0 <= offset && offset + n <= |data|
    ensures |out| == |data|
    ensures offset == 0 || !ReadWraps(p, n) ==> out == Put(data, offset, Contents(p)[..n])
    ensures ReadWraps(p, n) ==>
      var part := |p.store| - p.readPointer;
      out == Put(Put(data, offset, Contents(p)[..part]), part, Contents(p)[part..n])
  {
    var partLength := |p.store| - p.readPointer;
    OldestBytes(p, n);
    SecondGetAtZeroOffset(data, n, partLength, Contents(p)[..n]);
    if partLength > n then
      Put(data, offset, p.store[p.readPointer..p.readPointer + n])
    else
      var first := Put(data, offset, p.store[p.readPointer..]);
      Put(first, partLength, p.store[..n - partLength])
  }

  /** `q` is plane `p` after its `n` oldest unread bytes were consumed: cursor advanced, space freed, store untouched. */
  predicate Consumed(p: Plane, q: Plane, n: int)
    requires PlaneInv(p, |p.store|)
  {
    && PlaneInv(q, |p.store|)
    && 0 <= n <= p.bytesToRead
    && q.store == p.store
    && q.bytesToWrite == p.bytesToWrite + n
    && q.readPointer == (p.readPointer + n) % |p.store|
    && Contents(q) == Contents(p)[n..]
  }

  /**
   * `out` is `data` after the gets of `read` delivered the `n` oldest bytes
   * of `p` for `offset`, as written: in order at `offset` unless the read
   * wraps at a non-zero offset, when the second part lands at `partLength`.
   */
  predicate DeliveredAsWritten(p: Plane, n: int, data: seq<JByte>, offset: int, out: seq<JByte>)
    requires PlaneInv(p, |p.store|)
  {
    && 0 <= n <= p.bytesToRead
    && 0 <= offset && offset + n <= |data|
    && |out| == |data|
    && (offset == 0 || !ReadWraps(p, n) ==> out == Put(data, offset, Contents(p)[..n]))
    && (ReadWraps(p, n) ==>
          var part := |p.store| - p.readPointer;
          out == Put(Put(data, offset, Contents(p)[..part]), part, Contents(p)[part..n]))
  }

  /**
   * `read(plane, data, offset, length)`, as written. When the read wraps,
   * the second get lands at `data[partLength..]`, not at
   * `data[offset + partLength..]`: with a non-zero offset the bytes are not
   * delivered in order.
   */
  function Read(rb: RingBuffer, plane: int, data: seq<JByte>, offset: int, length: int): (r: Result<ReadResult, Error>)
    requires Valid(rb)
    ensures r.Failure? <==> BadRange(|data|, offset, length) || !(0 <= plane < |rb.planes|)
    ensures r.Failure? ==> r.error == IndexOutOfBounds
    ensures r.Success? ==>
      var p, b, n := rb.planes[plane], r.value.buffer, r.value.count;
      && Valid(b)
      && b.capacity == rb.capacity
      && |b.planes| == |rb.planes|
      && n == Min(length, p.bytesToRead)
      && Consumed(p, b.planes[plane], n)
      && DeliveredAsWritten(p, n, data, offset, r.value.data)
      && (n == 0 ==> b == rb && r.value.data == data)
      && (forall j :: 0 <= j < |rb.planes| && j != plane ==> b.planes[j] == rb.planes[j])
  {
    if BadRange(|data|, offset, length) || !(0 <= plane < |rb.planes|) then
      Failure(IndexOutOfBounds)
    else
      var p := rb.planes[plane];
      if p.bytesToRead == 0 || length == 0 then
        PutNothing(data, offset, Contents(p)[..0]);
        ModOnce(p.readPointer, rb.capacity);
        Success(ReadResult(rb, data, 0))
      else
        var n := if p.bytesToRead < length then p.bytesToRead else length;
        Success(ReadSome(rb, plane, n, data, offset))
  }

  /** The non-empty case of `read`: the buffer after taking `n` bytes from the plane, and the destination after the gets. */
  function ReadSome(rb: RingBuffer, plane: int, n: int, data: seq<JByte>, offset: int): (r: ReadResult)
    requires Valid(rb) && 0 <= plane < |rb.planes|
    requires 0 < n <= rb.planes[plane].bytesToRead
    requires 0 <= offset && offset + n <= |data|
    ensures var p, b := rb.planes[plane], r.buffer;
      && Valid(b)
      && b.capacity == rb.capacity
      && |b.planes| == |rb.planes|
      && r.count == n
      && Consumed(p, b.planes[plane], n)
      && DeliveredAsWritten(p, n, data, offset, r.data)
      && (forall j :: 0 <= j < |rb.planes| && j != plane ==> b.planes[j] == rb.planes[j])
  {
    ReadResult(WithPlane(rb, plane, ReadPlane(rb.planes[plane], n)), GetInto(rb.planes[plane], n, data, offset), n)
  }

  /** With offset 0 the two gets of a wrapped read line up: the misplaced index is the right one. */
  lemma SecondGetAtZeroOffset(data: seq<JByte>, n: int, part: int, chunk: seq<JByte>)
    requires n == |chunk| <= |data|
    ensures 0 < part <= n ==> Put(Put(data, 0, chunk[..part]), part, chunk[part..]) == Put(data, 0, chunk)
  {
  }

  /** `read(plane, data)`: into the whole array from index 0; always in order. */
  function ReadAll(rb: RingBuffer, plane: int, data: seq<JByte>): (r: Result<ReadResult, Error>)
    requires Valid(rb)
    ensures r.Failure? <==> !(0 <= plane < |rb.planes|)
    ensures r.Success? ==>
      var p, n := rb.planes[plane], r.value.count;
      && Valid(r.value.buffer)
      && r.value.buffer.capacity == rb.capacity
      && |r.value.buffer.planes| == |rb.planes|
      && |r.value.data| == |data|
      && n == Min(|data|, p.bytesToRead)
      && r.value.data[..n] == Contents(p)[..n]
      && r.value.data[n..] == data[n..]
      && Consumed(p, r.value.buffer.planes[plane], n)
      && (forall j :: 0 <= j < |rb.planes| && j != plane ==> r.value.buffer.planes[j] == rb.planes[j])
  {
    Read(rb, plane, data, 0, |data|)
  }

  /**
   * `read` with the second get placed at `offset + partLength`, as the
   * method's contract intends: the oldest bytes land in order at `offset`
   * whatever the offset and wherever the read cursor stands.
   */
  function ReadCorrected(rb: RingBuffer, plane: int, data: seq<JByte>, offset: int, length: int): (r: Result<ReadResult, Error>)
    requires Valid(rb)
    ensures r.Failure? <==> BadRange(|data|, offset, length) || !(0 <= plane < |rb.planes|)
    ensures r.Success? ==>
      var p, b, n := rb.planes[plane], r.value.buffer, r.value.count;
      && Valid(b)
      && b.capacity == rb.capacity
      && |b.planes| == |rb.planes|
      && n == Min(length, p.bytesToRead)
      && Consumed(p, b.planes[plane], n)
      && r.value.data == Put(data, offset, Contents(p)[..n])
      && (forall j :: 0 <= j < |rb.planes| && j != plane ==> b.planes[j] == rb.planes[j])
  {
    if BadRange(|data|, offset, length) || !(0 <= plane < |rb.planes|) then
      Failure(IndexOutOfBounds)
    else
      var p := rb.planes[plane];
      if p.bytesToRead == 0 || length == 0 then
        PutNothing(data, offset, Contents(p)[..0]);
        ModOnce(p.readPointer, rb.capacity);
        Success(ReadResult(rb, data, 0))
      else
        var n := if p.bytesToRead < length then p.bytesToRead else length;
        Success(ReadResult(ReadSome(rb, plane, n, data, offset).buffer, GetIntoCorrected(p, n, data, offset), n))
  }

  /** The corrected read differs from `read` only in where the bytes land: same outcome, same buffer, same count. */
  lemma ReadCorrectedKeepsBuffer(rb: RingBuffer, plane: int, data: seq<JByte>, offset: int, length: int)
    requires Valid(rb)
    ensures ReadCorrected(rb, plane, data, offset, length).Success? == Read(rb, plane, data, offset, length).Success?
    ensures ReadCorrected(rb, plane, data, offset, length).Success? ==>
      && ReadCorrected(rb, plane, data, offset, length).value.buffer == Read(rb, plane, data, offset, length).value.buffer
      && ReadCorrected(rb, plane, data, offset, length).value.count == Read(rb, plane, data, offset, length).value.count
  {
  }

  /** The two gets of `read` with the second one placed at `offset + partLength`. */
  function GetIntoCorrected(p: Plane, n: int, data: seq<JByte>, offset: int): (out: seq<JByte>)
    requires PlaneInv(p, |p.store|)
    requires 0 < n <= p.bytesToRead
    requires 0 <= offset && offset + n <= |data|
    ensures out == Put(data, offset, Contents(p)[..n])
  {
    var partLength := |p.store| - p.readPointer;
    OldestBytes(p, n);
    if partLength > n then
      Put(data, offset, p.store[p.readPointer..p.readPointer + n])
    else
      var first := Put(data, offset, p.store[p.readPointer..]);
      Put(first, offset + partLength, p.store[..n - partLength])
  }
}
