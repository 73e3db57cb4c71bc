/** Where the chunks of a file lie: plaintext offsets against on-disk byte ranges. */
module Layouts {
  import opened Bytes
  import opened Tlv

  const NONCE_LEN: nat := 24
  const TAG_LEN: nat := 16
  const MIN_CHUNK_SIZE: u32 := 4 * 1024
  const MAX_CHUNK_SIZE: u32 := 1024 * 1024

  /** A half-open range. */
  datatype Range = Range(start: nat, end: nat)

  predicate ValidChunkSize(size: u32) {
    MIN_CHUNK_SIZE <= size <= MAX_CHUNK_SIZE && IsPowerOfTwo(size)
  }

  function CheckChunkSize(size: u32): Result<u32, FormatError> {
    if ValidChunkSize(size) then Ok(size) else Err(BadChunkSize(size))
  }

  function CheckedAdd(a: u64, b: u64): Option<u64> {
    if a + b <= U64_MAX then Some(a + b) else None
  }

  function CheckedMul(a: u64, b: u64): Option<u64> {
    if a * b <= U64_MAX then assert a * b >= 0 by { Product(a, b); } Some(a * b) else None
  }

  lemma {:induction false} Product(a: nat, b: nat)
    ensures a * b >= 0
  {
  }

  lemma {:induction false} MulMonotone(a: nat, b: nat, c: nat)
    requires b <= c
    ensures a * b <= a * c
  {
    Product(a, c - b);
    assert a * c == a * b + a * (c - b);
  }

  /** The number of chunks a file of this length has; an empty file has one. */
  function RequiredChunks(totalLen: u64, chunkSize: u32): Result<u32, FormatError>
    requires chunkSize > 0
  {
    var full, remainder := totalLen / chunkSize, totalLen % chunkSize;
    var count := if remainder == 0 then full else full + 1;
    var atLeastOne := if count < 1 then 1 else count;
    if atLeastOne <= U32_MAX then Ok(atLeastOne) else Err(OffsetOverflow)
  }

  datatype Layout = Layout(chunkSize: u32, chunkCount: u32, totalLen: u64, payloadOffset: u64) {

    /** What `New` guarantees of every layout it returns. */
    predicate Valid() {
      ValidChunkSize(chunkSize) && RequiredChunks(totalLen, chunkSize) == Ok(chunkCount)
    }

    static function New(chunkSize: u32, chunkCount: u32, totalLen: u64, payloadOffset: u64)
      : (r: Result<Layout, FormatError>)
      ensures r.Ok? <==> Layout(chunkSize, chunkCount, totalLen, payloadOffset).Valid()
      ensures r.Ok? ==> r.value == Layout(chunkSize, chunkCount, totalLen, payloadOffset)
      ensures r.Err? ==>
                r.error == if !ValidChunkSize(chunkSize) then BadChunkSize(chunkSize)
                           else if RequiredChunks(totalLen, chunkSize).Err? then OffsetOverflow
                           else ChunkCountMismatch(RequiredChunks(totalLen, chunkSize).value, chunkCount)
    {
      if CheckChunkSize(chunkSize).Err? then Err(BadChunkSize(chunkSize))
      else
        match RequiredChunks(totalLen, chunkSize)
        case Err(e) => Err(e)
        case Ok(expected) =>
          if expected != chunkCount then Err(ChunkCountMismatch(expected, chunkCount))
          else Ok(Layout(chunkSize, chunkCount, totalLen, payloadOffset))
    }

    function ChunkOf(offset: u64): Result<u32, FormatError>
      requires chunkSize > 0
    {
      var index := offset / chunkSize;
      if index > U32_MAX then Err(OffsetOverflow)
      else if index >= chunkCount then Err(ChunkOutOfRange(index, chunkCount))
      else Ok(index)
    }

    /** The chunks covering a read; an empty read covers none. */
    function ChunksFor(offset: u64, len: u64): Result<Option<Range>, FormatError>
      requires chunkSize > 0
    {
      if len == 0 || offset >= totalLen then Ok(None)
      else
        match CheckedAdd(offset, len)
        case None => Err(OffsetOverflow)
        case Some(end) =>
          var lastByte := if end - 1 < totalLen - 1 then end - 1 else totalLen - 1;
          match (ChunkOf(offset), ChunkOf(lastByte))
          case (Err(e), _) => Err(e)
          case (_, Err(e)) => Err(e)
          case (Ok(first), Ok(last)) =>
            if last + 1 > U32_MAX then Err(OffsetOverflow) else Ok(Some(Range(first, last + 1)))
    }

    function PlaintextLenOf(index: u32): Result<u64, FormatError>
    {
      if index >= chunkCount then Err(ChunkOutOfRange(index, chunkCount))
      else
        match CheckedMul(index, chunkSize)
        case None => Err(OffsetOverflow)
        case Some(start) =>
          var left := if totalLen < start then 0 else totalLen - start;
          Ok(if left < chunkSize then left else chunkSize)
    }

    /** The on-disk bytes of a chunk: nonce, ciphertext, tag. */
    function CiphertextSpan(index: u32): Result<Range, FormatError>
    {
      match PlaintextLenOf(index)
      case Err(e) => Err(e)
      case Ok(plaintextLen) =>
        var framedFull := chunkSize + NONCE_LEN + TAG_LEN;
        match CheckedMul(index, framedFull)
        case None => Err(OffsetOverflow)
        case Some(skipped) =>
          match CheckedAdd(payloadOffset, skipped)
          case None => Err(OffsetOverflow)
          case Some(start) =>
            var end := start + NONCE_LEN + plaintextLen + TAG_LEN;
            if end > U64_MAX then Err(OffsetOverflow) else Ok(Range(start, end))
    }
  }

  // ---- What the chunk count means --------------------------------------------------

  lemma {:induction false} DivBounds(x: nat, d: nat)
    requires d > 0
    ensures d * (x / d) <= x < d * (x / d) + d
  {
  }

  lemma {:induction false} QuotientIs(x: nat, d: nat, q: nat)
    requires d > 0 && d * q <= x < d * q + d
    ensures x / d == q
  {
    DivBounds(x, d);
    var p := x / d;
    if p < q { MulStep(d, p, q); } else if q < p { MulStep(d, q, p); }
  }

  lemma {:induction false} MulStep(d: nat, p: nat, q: nat)
    requires p < q
    ensures d * p + d <= d * q
  {
    MulMonotone(d, p + 1, q);
    assert d * (p + 1) == d * p + d;
  }

  /** The count is the one that puts the end of the file into the last chunk. */
  lemma {:induction false} RequiredChunksMeans(totalLen: u64, chunkSize: u32, count: u32)
    requires chunkSize > 0
    ensures RequiredChunks(totalLen, chunkSize) == Ok(count)
            <==> count >= 1 && totalLen <= chunkSize * count
                 && (if count == 1 then true else chunkSize * (count - 1) < totalLen)
  {
    var n: nat, d: nat, c: nat := totalLen, chunkSize, count;
    DivBounds(n, d);
    var full := n / d;
    assert n % d == n - d * full;
    if c >= 1 && n <= d * c && (c > 1 ==> d * (c - 1) < n) {
      if n == d * c { QuotientIs(n, d, c); }
      else {
        assert d * c == d * (c - 1) + d;
        if c == 1 { QuotientIs(n, d, 0); } else { QuotientIs(n, d, c - 1); }
      }
    }
    if RequiredChunks(totalLen, chunkSize) == Ok(count) {
      if full == c { assert d * c == d * (c - 1) + d; }
    }
  }

  // ---- The partition ---------------------------------------------------------------

  /** There is no count exactly when the length exceeds what 2^32 - 1 chunks hold. */
  lemma {:induction false} RequiredChunksOverflow(totalLen: u64, chunkSize: u32)
    requires chunkSize > 0
    ensures RequiredChunks(totalLen, chunkSize).Err? <==> totalLen > chunkSize * U32_MAX
  {
    var n: nat, d: nat, top: nat := totalLen, chunkSize, U32_MAX;
    DivBounds(n, d);
    if n / d > top { MulMonotone(d, top + 1, n / d); }
    if n / d < top { MulMonotone(d, n / d + 1, top); }
    assert d * (n / d) + n % d == n;
  }

  /** Every chunk but the last is full, and no offset of a chunk inside the file overflows. */
  lemma {:induction false} ChunkLength(l: Layout, index: u32)
    requires l.Valid() && index < l.chunkCount
    ensures l.PlaintextLenOf(index).Ok?
    ensures l.chunkSize * index <= l.totalLen
    ensures l.PlaintextLenOf(index).value ==
            if index + 1 < l.chunkCount then l.chunkSize else l.totalLen - l.chunkSize * index
  {
    hide RequiredChunks, IsPowerOfTwo;
    RequiredChunksMeans(l.totalLen, l.chunkSize, l.chunkCount);
    var d: nat, i: nat, c: nat := l.chunkSize, index, l.chunkCount;
    assert i * d == d * i;
    if i + 1 < c {
      MulStep(d, i, c - 1);
    } else {
      assert d * c == d * i + d;
    }
  }

  function SumOfLengths(l: Layout, n: nat): nat
    requires l.Valid() && n <= l.chunkCount
  {
    if n == 0 then 0
    else
      ChunkLength(l, n - 1);
      SumOfLengths(l, n - 1) + l.PlaintextLenOf(n - 1).value
  }

  lemma {:induction false} FullChunksSum(l: Layout, n: nat)
    requires l.Valid() && n < l.chunkCount
    ensures SumOfLengths(l, n) == l.chunkSize * n
  {
    if n > 0 {
      FullChunksSum(l, n - 1);
      ChunkLength(l, n - 1);
      assert l.chunkSize * n == l.chunkSize * (n - 1) + l.chunkSize;
    }
  }

  /** The plaintext lengths add up to the length of the file. */
  lemma {:induction false} LengthsSumToTotal(l: Layout)
    requires l.Valid()
    ensures SumOfLengths(l, l.chunkCount) == l.totalLen
  {
    RequiredChunksMeans(l.totalLen, l.chunkSize, l.chunkCount);
    FullChunksSum(l, l.chunkCount - 1);
    ChunkLength(l, l.chunkCount - 1);
  }

  /** Where a frame starts, with no bound on the offset. */
  function FrameStart(l: Layout, index: nat): nat {
    Product(index, l.chunkSize + NONCE_LEN + TAG_LEN);
    l.payloadOffset + index * (l.chunkSize + NONCE_LEN + TAG_LEN)
  }

  /** A span is the frame at its place, and it is refused exactly when it ends past 2^64. */
  lemma {:induction false} SpanIs(l: Layout, index: u32)
    requires l.Valid() && index < l.chunkCount
    ensures l.PlaintextLenOf(index).Ok?
    ensures var end := FrameStart(l, index) + NONCE_LEN + l.PlaintextLenOf(index).value + TAG_LEN;
            l.CiphertextSpan(index) ==
            if end <= U64_MAX then Ok(Range(FrameStart(l, index), end)) else Err(OffsetOverflow)
  {
    ChunkLength(l, index);
    Product(index, l.chunkSize + NONCE_LEN + TAG_LEN);
  }

  /** The frames tile the payload: the first starts it, each next one starts where the last ended. */
  lemma {:induction false} SpansTouch(l: Layout, index: u32)
    requires l.Valid() && index + 1 < l.chunkCount
    requires l.CiphertextSpan(index + 1).Ok?
    ensures l.CiphertextSpan(0).Ok? && l.CiphertextSpan(0).value.start == l.payloadOffset
    ensures l.CiphertextSpan(index).Ok?
    ensures l.CiphertextSpan(index).value.end == l.CiphertextSpan(index + 1).value.start
  {
    SpanIs(l, 0);
    SpanIs(l, index);
    SpanIs(l, index + 1);
    ChunkLength(l, 0);
    ChunkLength(l, index);
    var w: nat, i: nat := l.chunkSize + NONCE_LEN + TAG_LEN, index;
    assert (i + 1) * w == i * w + w;
    MulStep(w, 0, i + 1);
    assert w * (i + 1) == (i + 1) * w;
  }

  // ---- Reads -----------------------------------------------------------------------

  /** The chunk of a byte of the file exists. */
  lemma {:induction false} ChunkOfByte(l: Layout, offset: u64)
    requires l.Valid() && offset < l.totalLen
    ensures l.ChunkOf(offset) == Ok(offset / l.chunkSize)
  {
    hide RequiredChunks, IsPowerOfTwo;
    RequiredChunksMeans(l.totalLen, l.chunkSize, l.chunkCount);
    QuotientBelow(offset, l.chunkSize, l.chunkCount);
  }

  /** Chunks behind the last have no length and no place, and bytes behind the last chunk no chunk. */
  lemma {:induction false} OutsideIsRefused(l: Layout, index: u32, offset: u64)
    requires l.Valid()
    ensures l.PlaintextLenOf(index).Ok? <==> index < l.chunkCount
    ensures index >= l.chunkCount ==>
              l.PlaintextLenOf(index) == Err(ChunkOutOfRange(index, l.chunkCount)) && l.CiphertextSpan(index) == Err(ChunkOutOfRange(index, l.chunkCount))
    ensures var i := offset / l.chunkSize;
            l.ChunkOf(offset) == if i < l.chunkCount then Ok(i) else if i > U32_MAX then Err(OffsetOverflow) else Err(ChunkOutOfRange(i, l.chunkCount))
  {
    hide RequiredChunks, IsPowerOfTwo;
    if index < l.chunkCount { ChunkLength(l, index); }
  }

  lemma {:induction false} QuotientBelow(x: nat, d: nat, c: nat)
    requires d > 0 && x < d * c
    ensures x / d < c
  {
    DivBounds(x, d);
    if c < x / d { MulStep(d, c, x / d); }
  }

  lemma {:induction false} DivMonotone(x: nat, y: nat, d: nat)
    requires d > 0 && x <= y
    ensures x / d <= y / d
  {
    DivBounds(x, d);
    DivBounds(y, d);
    if y / d < x / d { MulStep(d, y / d, x / d); }
  }

  /** A range of chunks holding every byte of the read that exists. */
  predicate Covers(l: Layout, range: Range, offset: u64, len: u64)
    requires l.chunkSize > 0
  {
    forall b: u64 :: offset <= b < offset + len && b < l.totalLen ==>
      range.start <= b / l.chunkSize < range.end
  }

  /**
    `ChunksFor` returns the smallest covering range. It answers every read whose end fits in
    64 bits, and refuses the others that are not empty.
   */
  lemma {:induction false} ChunksForIsSmallest(l: Layout, offset: u64, len: u64)
    requires l.Valid()
    ensures var r := l.ChunksFor(offset, len);
            if len == 0 || offset >= l.totalLen then r == Ok(None)
            else if offset + len > U64_MAX then r == Err(OffsetOverflow)
            else
              && r.Ok? && r.value.Some?
              && r.value.value.end <= l.chunkCount
              && Covers(l, r.value.value, offset, len)
              && forall other: Range :: Covers(l, other, offset, len) ==>
                   other.start <= r.value.value.start && r.value.value.end <= other.end
  {
    if len > 0 && offset < l.totalLen && offset + len <= U64_MAX {
      var end := offset + len;
      var lastByte: u64 := if end - 1 < l.totalLen - 1 then end - 1 else l.totalLen - 1;
      ChunkOfByte(l, offset);
      ChunkOfByte(l, lastByte);
      DivMonotone(offset, lastByte, l.chunkSize);
      var r := l.ChunksFor(offset, len);
      assert r == Ok(Some(Range(offset / l.chunkSize, lastByte / l.chunkSize + 1)));
      forall b: u64 | offset <= b < offset + len && b < l.totalLen
        ensures offset / l.chunkSize <= b / l.chunkSize < lastByte / l.chunkSize + 1
      {
        DivMonotone(offset, b, l.chunkSize);
        DivMonotone(b, lastByte, l.chunkSize);
      }
      assert Covers(l, r.value.value, offset, len);
      forall other: Range | Covers(l, other, offset, len)
        ensures other.start <= r.value.value.start && r.value.value.end <= other.end
      {
        assert other.start <= offset / l.chunkSize;
        assert lastByte / l.chunkSize < other.end;
      }
    }
  }
}
