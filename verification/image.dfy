/**
 * The pure parts of Image.java: the BufferedImage-type to pixel-format
 * table and the strided row copy behind its five `copy` overloads.
 *
 * The copy overloads differ only in their element type and in how an
 * element is carried across (a mask and a narrowing cast for bytes and
 * shorts, nothing for ints, floats and doubles), so they are modelled as
 * one generic `Copy` with a `convert` parameter. Each NIO buffer becomes a
 * sequence (its capacity) with a start position and a limit.
 */
module Images {
  import opened Wrappers
  import opened JavaLang
  import opened MediaTypes

  // java.awt.image.BufferedImage type constants
  const TYPE_CUSTOM: int := 0
  const TYPE_INT_RGB: int := 1
  const TYPE_INT_ARGB: int := 2
  const TYPE_INT_ARGB_PRE: int := 3
  const TYPE_INT_BGR: int := 4
  const TYPE_3BYTE_BGR: int := 5
  const TYPE_4BYTE_ABGR: int := 6
  const TYPE_4BYTE_ABGR_PRE: int := 7
  const TYPE_USHORT_565_RGB: int := 8
  const TYPE_USHORT_555_RGB: int := 9
  const TYPE_BYTE_GRAY: int := 10
  const TYPE_USHORT_GRAY: int := 11
  const TYPE_BYTE_BINARY: int := 12
  const TYPE_BYTE_INDEXED: int := 13

  /** The image types `getPixelFormat` maps to `f`, read off the type names. */
  function ImageTypesFor(f: PixelFormat): set<int> {
    match f
    case BGR24 => {TYPE_3BYTE_BGR}
    case ABGR => {TYPE_4BYTE_ABGR, TYPE_4BYTE_ABGR_PRE}
    case RGB444 => {TYPE_BYTE_BINARY}
    case RGB555 => {TYPE_BYTE_INDEXED, TYPE_USHORT_555_RGB}
    case GRAY8 => {TYPE_BYTE_GRAY}
    case ARGB => {TYPE_INT_ARGB, TYPE_INT_ARGB_PRE}
    case RGB24 => {TYPE_INT_RGB}
    case GRAY16 => {TYPE_USHORT_GRAY}
    case RGB565 => {TYPE_USHORT_565_RGB}
    case _ => {}
  }

  /** `getPixelFormat(image)` on `image.getType()`; null for TYPE_CUSTOM, TYPE_INT_BGR and unknown types. */
  function GetPixelFormat(imageType: int): (r: Option<PixelFormat>)
    ensures r.Some? ==> imageType in ImageTypesFor(r.value)
    ensures r.None? <==> imageType == TYPE_CUSTOM || imageType == TYPE_INT_BGR || !(0 <= imageType <= 13)
  {
    if imageType == TYPE_3BYTE_BGR then Some(BGR24)
    else if imageType == TYPE_4BYTE_ABGR || imageType == TYPE_4BYTE_ABGR_PRE then Some(ABGR)
    else if imageType == TYPE_BYTE_BINARY then Some(RGB444)
    else if imageType == TYPE_BYTE_INDEXED then Some(RGB555)
    else if imageType == TYPE_BYTE_GRAY then Some(GRAY8)
    else if imageType == TYPE_INT_ARGB || imageType == TYPE_INT_ARGB_PRE then Some(ARGB)
    else if imageType == TYPE_INT_RGB then Some(RGB24)
    else if imageType == TYPE_USHORT_GRAY then Some(GRAY16)
    else if imageType == TYPE_USHORT_555_RGB then Some(RGB555)
    else if imageType == TYPE_USHORT_565_RGB then Some(RGB565)
    else None
  }

  /** The table read both ways: a type maps to `f` exactly when it is one of `f`'s types. */
  lemma GetPixelFormatInverse(imageType: int, f: PixelFormat)
    ensures GetPixelFormat(imageType) == Some(f) <==> imageType in ImageTypesFor(f)
  {
  }

  // ---------------------------------------------------------------------------
  // Strided row copy
  // ---------------------------------------------------------------------------

  /**
   * The geometry of one copy. Each NIO buffer has a start position, a limit
   * and a capacity, with `0 <= start <= limit <= capacity` as java.nio keeps
   * them, and the caller's line stride. Any stride may be given.
   */
  datatype Layout = Layout(
    srcStart: int, srcStep: int, srcLimit: int, srcCapacity: int,
    dstStart: int, dstStep: int, dstLimit: int, dstCapacity: int)

  predicate LayoutOk(l: Layout) {
    && 0 <= l.srcStart <= l.srcLimit <= l.srcCapacity
    && 0 <= l.dstStart <= l.dstLimit <= l.dstCapacity
  }

  /** The start of line `k` when lines begin at `start` and lie `step` apart. */
  function Line(start: int, step: int, k: nat): (r: int)
    ensures step >= 0 ==> r >= start
  {
    if k == 0 then start else Line(start, step, k - 1) + step
  }

  /** How many whole strides of `n` fit in `d`. */
  function Quotient(d: nat, n: int): nat
    requires n > 0
    decreases d
  {
    if d < n then 0 else 1 + Quotient(d - n, n)
  }

  /** What is left of `d` after taking out whole strides of `n`. */
  function Remainder(d: nat, n: int): (r: nat)
    requires n > 0
    ensures r < n
    decreases d
  {
    if d < n then d else Remainder(d - n, n)
  }

  /** Where row `k` starts in the source. */
  function SrcLine(l: Layout, k: nat): int {
    Line(l.srcStart, l.srcStep, k)
  }

  /** Where row `k` starts in the destination. */
  function DstLine(l: Layout, k: nat): int {
    Line(l.dstStart, l.dstStep, k)
  }

  /** The loop condition holds for row `k`: both line starts lie below their buffers' capacities. */
  predicate Visited(l: Layout, k: nat) {
    SrcLine(l, k) < l.srcCapacity && DstLine(l, k) < l.dstCapacity
  }

  /** `Buffer.position` accepts both line starts of row `k`: neither is negative or past its limit. */
  predicate InRange(l: Layout, k: nat) {
    0 <= SrcLine(l, k) <= l.srcLimit && 0 <= DstLine(l, k) <= l.dstLimit
  }

  /** The loop gets as far as row `k`: every earlier row passed the loop condition and both position calls. */
  predicate Reached(l: Layout, k: nat) {
    k == 0 || (Reached(l, k - 1) && Visited(l, k - 1) && InRange(l, k - 1))
  }

  /** Row `k` is executed: reached, inside the loop condition, and accepted by `position`. */
  predicate Runs(l: Layout, k: nat) {
    Reached(l, k) && Visited(l, k) && InRange(l, k)
  }

  /**
   * The copy throws IllegalArgumentException: some reached row passes the
   * loop condition but has a line start that `position` rejects.
   */
  ghost predicate Throws(l: Layout) {
    exists k: nat :: Reached(l, k) && Visited(l, k) && !InRange(l, k)
  }

  /**
   * The width of row `k`: the shorter stride, cut down to what remains of
   * either buffer, up to its limit, from the row's start.
   */
  function RowWidth(l: Layout, k: nat): int {
    Min(Min(l.srcStep, l.dstStep), Min(l.srcLimit - SrcLine(l, k), l.dstLimit - DstLine(l, k)))
  }

  /** The row a destination index falls in, counted from the destination start. */
  function RowOf(l: Layout, i: int): nat
    requires l.dstStep > 0 && i >= l.dstStart
  {
    Quotient(i - l.dstStart, l.dstStep)
  }

  /** The column of a destination index within its row. */
  function ColumnOf(l: Layout, i: int): nat
    requires l.dstStep > 0 && i >= l.dstStart
  {
    Remainder(i - l.dstStart, l.dstStep)
  }

  /**
   * Destination index `i` receives an element: it lies in an executed row,
   * at a column below that row's width. With a stride of 0 or less the
   * width is never positive, so nothing is covered.
   */
  predicate Covered(l: Layout, i: int) {
    && l.dstStep > 0
    && i >= l.dstStart
    && Runs(l, RowOf(l, i))
    && ColumnOf(l, i) < RowWidth(l, RowOf(l, i))
  }

  /** The source index whose element lands at covered destination index `i`; it lies below the source limit. */
  function SourceOf(l: Layout, i: int): (s: int)
    requires Covered(l, i)
    ensures 0 <= s < l.srcLimit
  {
    SrcLine(l, RowOf(l, i)) + ColumnOf(l, i)
  }

  /** An offset of `k` strides plus a column below the stride splits back into `k` and the column. */
  lemma {:induction false} QuotientRemainder(n: int, k: nat, x: int)
    requires n > 0 && 0 <= x < n
    ensures Line(0, n, k) + x >= 0
    ensures Quotient(Line(0, n, k) + x, n) == k
    ensures Remainder(Line(0, n, k) + x, n) == x
  {
    if k > 0 {
      QuotientRemainder(n, k - 1, x);
    }
  }

  /** Every offset is its whole strides plus its remainder. */
  lemma {:induction false} SplitOffset(d: nat, n: int)
    requires n > 0
    ensures d == Line(0, n, Quotient(d, n)) + Remainder(d, n)
    decreases d
  {
    if d >= n {
      SplitOffset(d - n, n);
    }
  }

  /** Lines from any start are the lines from zero, shifted. */
  lemma {:induction false} LineShift(start: int, step: int, k: nat)
    ensures Line(start, step, k) == start + Line(0, step, k)
  {
    if k > 0 {
      LineShift(start, step, k - 1);
    }
  }

  /** A row start plus a column below the stride lies in that row, at that column. */
  lemma RowAndColumn(l: Layout, k: nat, x: int)
    requires l.dstStep > 0 && 0 <= x < l.dstStep
    ensures DstLine(l, k) + x >= l.dstStart
    ensures RowOf(l, DstLine(l, k) + x) == k
    ensures ColumnOf(l, DstLine(l, k) + x) == x
  {
    LineShift(l.dstStart, l.dstStep, k);
    QuotientRemainder(l.dstStep, k, x);
  }

  /** A destination index is the start of its row's line plus its column. */
  lemma IndexIsLinePlusColumn(l: Layout, i: int)
    requires l.dstStep > 0 && i >= l.dstStart
    ensures i == DstLine(l, RowOf(l, i)) + ColumnOf(l, i)
  {
    SplitOffset(i - l.dstStart, l.dstStep);
    LineShift(l.dstStart, l.dstStep, RowOf(l, i));
  }

  /** Once the loop reaches row `j`, every earlier row was executed. */
  lemma {:induction false} ReachedPrefix(l: Layout, j: nat, k: nat)
    requires Reached(l, j) && k < j
    ensures Runs(l, k)
    decreases j
  {
    if k < j - 1 {
      ReachedPrefix(l, j - 1, k);
    }
  }

  /** With strides of 0 or more, line starts only grow: once a row fails the loop condition, every later row does. */
  lemma {:induction false} NotVisitedAfter(l: Layout, k: nat, j: nat)
    requires l.srcStep >= 0 && l.dstStep >= 0
    requires !Visited(l, k) && k <= j
    ensures !Visited(l, j)
    decreases j - k
  {
    if k < j {
      NotVisitedAfter(l, k, j - 1);
    }
  }

  /** With strides of 0 or more, row widths never grow, and the running minimum is the closed form. */
  lemma RowWidthShrinks(l: Layout, k: nat)
    requires l.srcStep >= 0 && l.dstStep >= 0
    ensures RowWidth(l, k + 1) <= RowWidth(l, k)
    ensures RowWidth(l, k + 1) == Min(RowWidth(l, k), Min(l.srcLimit - SrcLine(l, k + 1), l.dstLimit - DstLine(l, k + 1)))
  {
  }

  /** A stride of 0 or less on either side (`step / 4` of a narrow row, say) copies nothing. */
  lemma NothingCopiedWithoutPositiveSteps(l: Layout, i: int)
    requires l.srcStep <= 0 || l.dstStep <= 0
    ensures !Covered(l, i)
  {
  }

  /**
   * Buffers made by `wrap(array, start, length - start)` have their limit at
   * their capacity. With strides of 0 or more such a copy never throws.
   */
  lemma WrappedBuffersNeverThrow(l: Layout)
    requires LayoutOk(l)
    requires l.srcLimit == l.srcCapacity && l.dstLimit == l.dstCapacity
    requires l.srcStep >= 0 && l.dstStep >= 0
    ensures !Throws(l)
  {
    forall k: nat | Visited(l, k)
      ensures InRange(l, k)
    {
    }
  }

  /**
   * A source whose limit is below its capacity, as `createImage` sets it up
   * for the byte path: capacity 10, limit 4, both strides 3, a destination
   * of 12. Row 0 copies 3 elements. Row 1 is clamped to the 1 element left
   * before the limit. Row 2 starts at 6, inside the capacity but past the
   * limit, so `position(6)` throws.
   */
  lemma PastLimitThrows()
    ensures var l := Layout(0, 3, 4, 10, 0, 3, 12, 12);
            && Throws(l)
            && Covered(l, 0) && Covered(l, 2) && Covered(l, 3) && !Covered(l, 4)
            && SourceOf(l, 3) == 3
  {
    var l := Layout(0, 3, 4, 10, 0, 3, 12, 12);
    assert Reached(l, 1) && Reached(l, 2) && Visited(l, 2) && !InRange(l, 2);
    assert RowOf(l, 3) == 1 && ColumnOf(l, 3) == 0;
    assert RowOf(l, 4) == 1 && ColumnOf(l, 4) == 1;
  }

  /** Destination index `i` belongs to row `k` of the copy. */
  predicate InRow(l: Layout, i: int, k: nat) {
    Covered(l, i) && RowOf(l, i) == k
  }

  /** Destination index `i` belongs to one of the first `k` rows of the copy. */
  predicate InFirstRows(l: Layout, i: int, k: nat) {
    Covered(l, i) && RowOf(l, i) < k
  }

  /** The copy loop's running minimum of widths, cut at row `k`, is that row's width. */
  lemma NextWidth(l: Layout, k: nat, w: int)
    requires l.srcStep > 0 && l.dstStep > 0
    requires w == if k == 0 then Min(l.srcStep, l.dstStep) else RowWidth(l, k - 1)
    ensures Min(Min(w, l.srcLimit - SrcLine(l, k)), l.dstLimit - DstLine(l, k)) == RowWidth(l, k)
  {
    if k > 0 {
      RowWidthShrinks(l, k - 1);
    }
  }

  /** `out` is `dst` with the first `k` rows of the copy written. */
  ghost predicate FirstRowsCopied<T>(l: Layout, src: seq<T>, dst: seq<T>, out: seq<T>, k: nat, convert: T -> T)
    requires l.srcLimit <= |src|
  {
    && |out| == |dst|
    && forall i :: 0 <= i < |dst| ==>
         out[i] == if InFirstRows(l, i, k) then convert(src[SourceOf(l, i)]) else dst[i]
  }

  /** Writing row `k` over the first `k` rows gives the first `k + 1`. */
  lemma NextRowCopied<T>(l: Layout, src: seq<T>, dst: seq<T>, out: seq<T>, next: seq<T>, k: nat, convert: T -> T)
    requires l.srcLimit <= |src|
    requires FirstRowsCopied(l, src, dst, out, k, convert)
    requires |next| == |out|
    requires forall i :: 0 <= i < |out| ==>
               next[i] == if InRow(l, i, k) then convert(src[SourceOf(l, i)]) else out[i]
    ensures FirstRowsCopied(l, src, dst, next, k + 1, convert)
  {
  }

  /** A row whose width is 0 or less copies nothing: the first `k` rows are the first `k + 1`. */
  lemma EmptyRow<T>(l: Layout, src: seq<T>, dst: seq<T>, out: seq<T>, k: nat, convert: T -> T)
    requires l.srcLimit <= |src|
    requires RowWidth(l, k) <= 0
    requires FirstRowsCopied(l, src, dst, out, k, convert)
    ensures FirstRowsCopied(l, src, dst, out, k + 1, convert)
  {
  }

  /**
   * When the loop stops at row `k`, by its condition or by a throw, the
   * covered indices are exactly those of the first `k` rows.
   */
  lemma CoveredBeforeExit(l: Layout, k: nat, i: int)
    requires Reached(l, k) && !Runs(l, k)
    ensures Covered(l, i) <==> InFirstRows(l, i, k)
  {
    if Covered(l, i) && RowOf(l, i) > k {
      ReachedPrefix(l, RowOf(l, i), k);
    }
  }

  /** When the loop condition fails at a reached row, no row throws. */
  lemma NoThrowAfterExit(l: Layout, k: nat)
    requires Reached(l, k) && !Visited(l, k)
    ensures !Throws(l)
  {
    forall j: nat | Reached(l, j) && Visited(l, j)
      ensures InRange(l, j)
    {
      if j < k {
        ReachedPrefix(l, k, j);
      } else if j > k {
        ReachedPrefix(l, j, k);
      }
    }
  }

  /** One pass of the inner loop: copy the `RowWidth(l, k)` elements of row `k`. */
  method CopyRow<T>(l: Layout, src: seq<T>, dst: seq<T>, k: nat, w: int, convert: T -> T)
    returns (out: seq<T>)
    requires LayoutOk(l) && |src| == l.srcCapacity && |dst| == l.dstCapacity
    requires l.dstStep > 0
    requires Runs(l, k) && w == RowWidth(l, k)
    ensures |out| == |dst|
    ensures forall i :: 0 <= i < |dst| ==>
              out[i] == if InRow(l, i, k) then convert(src[SourceOf(l, i)]) else dst[i]
  {
    var srcLine, dstLine := SrcLine(l, k), DstLine(l, k);
    var x := 0;
    out := dst;
    while x < w
      invariant 0 <= x <= Max0(w)
      invariant |out| == |dst|
      invariant forall i :: 0 <= i < |dst| ==>
                  out[i] == if InRow(l, i, k) && ColumnOf(l, i) < x then convert(src[SourceOf(l, i)]) else dst[i]
    {
      RowAndColumn(l, k, x);
      forall i | 0 <= i < |dst| && i >= l.dstStart
        ensures i == DstLine(l, RowOf(l, i)) + ColumnOf(l, i)
      {
        IndexIsLinePlusColumn(l, i);
      }
      out := out[dstLine + x := convert(src[srcLine + x])];
      x := x + 1;
    }
  }

  function Max0(x: int): nat {
    if x < 0 then 0 else x
  }

  /**
   * `Image.copy(srcBuf, srcStep, dstBuf, dstStep[, signed])`: row after row,
   * while both line starts lie below their capacities, position both
   * buffers at the line starts (which throws IllegalArgumentException for a
   * negative start or one past the limit), cut `w` to what remains of
   * either buffer, and copy `w` elements.
   *
   * `thrown` says the call ended in that exception; the rows before it have
   * been written. The one input on which Java never returns, two zero
   * strides with both starts inside their buffers, is excluded.
   */
  method Copy<T>(src: seq<T>, srcStart: int, srcLimit: int, srcStep: int,
                 dst: seq<T>, dstStart: int, dstLimit: int, dstStep: int, convert: T -> T)
    returns (out: seq<T>, thrown: bool)
    requires 0 <= srcStart <= srcLimit <= |src| && 0 <= dstStart <= dstLimit <= |dst|
    requires srcStep == 0 && dstStep == 0 ==> srcStart >= |src| || dstStart >= |dst|
    ensures |out| == |dst|
    ensures var l := Layout(srcStart, srcStep, srcLimit, |src|, dstStart, dstStep, dstLimit, |dst|);
            forall i :: 0 <= i < |dst| ==>
              out[i] == if Covered(l, i) then convert(src[SourceOf(l, i)]) else dst[i]
    ensures thrown <==> Throws(Layout(srcStart, srcStep, srcLimit, |src|, dstStart, dstStep, dstLimit, |dst|))
  {
    var l := Layout(srcStart, srcStep, srcLimit, |src|, dstStart, dstStep, dstLimit, |dst|);
    var w := Min(srcStep, dstStep);
    var srcLine, dstLine := srcStart, dstStart;
    var k: nat := 0;  // rows done so far
    out, thrown := dst, false;
    while srcLine < |src| && dstLine < |dst|
      invariant srcLine == SrcLine(l, k) && dstLine == DstLine(l, k)
      invariant Reached(l, k)
      invariant w <= Min(srcStep, dstStep)
      invariant srcStep > 0 && dstStep > 0 ==> w == if k == 0 then Min(srcStep, dstStep) else RowWidth(l, k - 1)
      invariant srcStep == 0 && dstStep == 0 ==> !(srcLine < |src| && dstLine < |dst|)
      invariant FirstRowsCopied(l, src, dst, out, k, convert)
      decreases if srcStep > 0 then |src| - srcLine
                else if dstStep > 0 then |dst| - dstLine
                else if srcStep < 0 then srcLine
                else dstLine
    {
      if !(0 <= srcLine <= srcLimit && 0 <= dstLine <= dstLimit) {
        thrown := true;  // Buffer.position rejects the line start
        break;
      }
      if srcStep > 0 && dstStep > 0 {
        NextWidth(l, k, w);
      }
      w := Min(Min(w, srcLimit - srcLine), dstLimit - dstLine);
      if w > 0 {
        var next := CopyRow(l, src, out, k, w, convert);
        NextRowCopied(l, src, dst, out, next, k, convert);
        out := next;
      } else {
        EmptyRow(l, src, dst, out, k, convert);
      }
      srcLine, dstLine := srcLine + srcStep, dstLine + dstStep;
      k := k + 1;
    }
    forall i | 0 <= i < |dst|
      ensures Covered(l, i) == InFirstRows(l, i, k)
    {
      CoveredBeforeExit(l, k, i);
    }
    assert FirstRowsCopied(l, src, dst, out, k, convert);
    if thrown {
      assert Reached(l, k) && Visited(l, k) && !InRange(l, k);
    } else {
      NoThrowAfterExit(l, k);
    }
  }

  /**
   * Row `k` of a copy, stated as a row: for every column below the row's
   * width, the destination element at the row's line start plus the
   * column receives the source element at the source line start plus the
   * column.
   */
  lemma CopiedRow(l: Layout, k: nat, x: int)
    requires LayoutOk(l) && Runs(l, k) && 0 <= x < RowWidth(l, k)
    ensures 0 <= DstLine(l, k) + x < l.dstLimit
    ensures Covered(l, DstLine(l, k) + x)
    ensures SourceOf(l, DstLine(l, k) + x) == SrcLine(l, k) + x
  {
    RowAndColumn(l, k, x);
  }

  /** How a byte travels through the byte `copy`: `(byte) (signed ? b : b & 0xFF)`. */
  function ByteTransfer(signed: bool, b: JByte): JByte {
    NarrowToByte(if signed then b else MaskByte(b))
  }

  /** How a short travels through the short `copy`: `(short) (signed ? s : s & 0xFFFF)`. */
  function ShortTransfer(signed: bool, s: JShort): JShort {
    NarrowToShort(if signed then s else MaskShort(s))
  }

  /** The `signed` flag never changes the value written: mask and cast cancel out. */
  lemma TransferIsIdentity(signed: bool, b: JByte, s: JShort)
    ensures ByteTransfer(signed, b) == b
    ensures ShortTransfer(signed, s) == s
  {
  }

  /** The byte overload: every covered element arrives unchanged, whatever `signed` says. */
  method CopyBytes(src: seq<JByte>, srcStart: int, srcLimit: int, srcStep: int,
                   dst: seq<JByte>, dstStart: int, dstLimit: int, dstStep: int, signed: bool)
    returns (out: seq<JByte>, thrown: bool)
    requires 0 <= srcStart <= srcLimit <= |src| && 0 <= dstStart <= dstLimit <= |dst|
    requires srcStep == 0 && dstStep == 0 ==> srcStart >= |src| || dstStart >= |dst|
    ensures |out| == |dst|
    ensures var l := Layout(srcStart, srcStep, srcLimit, |src|, dstStart, dstStep, dstLimit, |dst|);
            && (forall i :: 0 <= i < |dst| ==> out[i] == if Covered(l, i) then src[SourceOf(l, i)] else dst[i])
            && (thrown <==> Throws(l))
  {
    out, thrown := Copy(src, srcStart, srcLimit, srcStep, dst, dstStart, dstLimit, dstStep, b => ByteTransfer(signed, b));
    forall b: JByte ensures ByteTransfer(signed, b) == b {
      TransferIsIdentity(signed, b, 0);
    }
  }

  /** The short overload: every covered element arrives unchanged, whatever `signed` says. */
  method CopyShorts(src: seq<JShort>, srcStart: int, srcLimit: int, srcStep: int,
                    dst: seq<JShort>, dstStart: int, dstLimit: int, dstStep: int, signed: bool)
    returns (out: seq<JShort>, thrown: bool)
    requires 0 <= srcStart <= srcLimit <= |src| && 0 <= dstStart <= dstLimit <= |dst|
    requires srcStep == 0 && dstStep == 0 ==> srcStart >= |src| || dstStart >= |dst|
    ensures |out| == |dst|
    ensures var l := Layout(srcStart, srcStep, srcLimit, |src|, dstStart, dstStep, dstLimit, |dst|);
            && (forall i :: 0 <= i < |dst| ==> out[i] == if Covered(l, i) then src[SourceOf(l, i)] else dst[i])
            && (thrown <==> Throws(l))
  {
    out, thrown := Copy(src, srcStart, srcLimit, srcStep, dst, dstStart, dstLimit, dstStep, s => ShortTransfer(signed, s));
    forall s: JShort ensures ShortTransfer(signed, s) == s {
      TransferIsIdentity(signed, 0, s);
    }
  }
}
