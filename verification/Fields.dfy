/**
 Operation region fields (opregion.c) and buffer fields (exec-operand.c): chunked reads and
 read-modify-writes through an access width, over a region of plain little-endian memory.
 */
module Fields {
  import opened AmlTypes
  import opened Bits
  import opened FieldBits

  const FIELD_ANY_ACCESS: nat := 0
  const FIELD_BYTE_ACCESS: nat := 1
  const FIELD_WORD_ACCESS: nat := 2
  const FIELD_DWORD_ACCESS: nat := 3
  const FIELD_QWORD_ACCESS: nat := 4

  /** Offset and size in bits, as in lai_nsnode_t. */
  datatype Field = Field(offset: nat, size: nat, flags: byte)

  datatype Rule = Preserve | WriteOnes | WriteZeroes

  /** InvalidFlags is a panic; WideShift is 1 << 64, which C leaves undefined; ShortSource reads behind a buffer. */
  datatype Status = Done | InvalidFlags | WideShift | ShortSource

  // ------------------------------------------------------------------ access width

  /** 1 << (32 - clz(size - 1)): the least power of two that is not below the size. */
  function RoundUp(size: nat): (p: nat)
    ensures p >= 1 && p >= size && (size > 1 ==> p < 2 * size)
  {
    if size <= 1 then 1 else 2 * RoundUp((size + 1) / 2)
  }

  /**
   The unit of access that the flags ask for: bytes, words, double or quad words for the types
   1 to 4; for type 0 the least of these that holds the field, but none above the limit.
   */
  predicate Typed(f: Field, isMemory: bool, w: nat) {
    || (f.flags % 16 == 1 && w == 8)
    || (f.flags % 16 == 2 && w == 16)
    || (f.flags % 16 == 3 && w == 32)
    || (f.flags % 16 == 4 && w == 64)
    || (f.flags % 16 == 0 && w in {8, 16, 32, 64} && w <= (if isMemory then 64 else 32)
        && (f.size <= w || w == if isMemory then 64 else 32) && (w > 8 ==> 2 * f.size > w))
  }

  /** No two units do. */
  lemma TypedOnce(f: Field, isMemory: bool, w: nat, v: nat)
    requires Typed(f, isMemory, w) && Typed(f, isMemory, v)
    ensures w == v
  {
  }

  /** lai_calculate_access_width(); None is the panic. */
  function AccessWidth(f: Field, isMemory: bool): (w: Option<nat>)
    ensures w.Some? ==> IsWidth(w.value) && Typed(f, isMemory, w.value)
    ensures w.None? <==> f.flags % 16 > 4
  {
    var access := f.flags % 16;
    if access == FIELD_BYTE_ACCESS then Some(8)
    else if access == FIELD_WORD_ACCESS then Some(16)
    else if access == FIELD_DWORD_ACCESS then Some(32)
    else if access == FIELD_QWORD_ACCESS then Some(64)
    else if access == FIELD_ANY_ACCESS then
      RoundUpIsPower(f.size);
      SmallPower(RoundUp(f.size));
      var limit := if isMemory then 64 else 32;
      var p := RoundUp(f.size);
      Some(if p > limit then limit else if p < 8 then 8 else p)
    else None
  }

  predicate IsWidth(w: nat) {
    w == 8 || w == 16 || w == 32 || w == 64
  }

  /** The least power of two that is not below the size. */
  lemma {:induction false} RoundUpIsPower(size: nat)
    ensures exists k: nat :: RoundUp(size) == Pow2(k)
    ensures size > 0 ==> size <= RoundUp(size) < 2 * size
    decreases size
  {
    if size <= 1 {
      assert RoundUp(size) == Pow2(0);
    } else {
      RoundUpIsPower((size + 1) / 2);
      var k: nat :| RoundUp((size + 1) / 2) == Pow2(k);
      assert RoundUp(size) == Pow2(k + 1);
    }
  }

  /** Powers of two below 128. */
  lemma SmallPower(p: nat)
    requires exists k: nat :: p == Pow2(k)
    ensures p in {1, 2, 4, 8, 16, 32, 64} || p >= 128
  {
    var k: nat :| p == Pow2(k);
    if k >= 7 {
      PowerGrows(7, k);
    } else {
      assert k == 0 || k == 1 || k == 2 || k == 3 || k == 4 || k == 5 || k == 6;
    }
  }

  lemma {:induction false} PowerGrows(j: nat, k: nat)
    requires j <= k
    ensures Pow2(j) <= Pow2(k)
    decreases k
  {
    if j < k {
      PowerGrows(j, k - 1);
    }
  }

  function WriteRule(flags: byte): Option<Rule> {
    var flag := flags / 32;
    if flag == 0 then Some(Preserve) else if flag == 1 then Some(WriteOnes) else if flag == 2 then Some(WriteZeroes) else None
  }

  /** b & ~(w - 1): the first bit of the access unit that holds bit b. */
  function UnitStart(b: nat, w: nat): (u: nat)
    requires IsWidth(w)
    ensures u <= b < u + w && u % 8 == 0
  {
    if b < w then 0 else w + UnitStart(b - w, w)
  }

  /** Units tile the bits: the next bit of a unit is in it or starts the next one. */
  lemma {:induction false} UnitFacts(a: nat, b: nat, w: nat)
    requires IsWidth(w) && a <= b
    ensures UnitStart(a, w) <= UnitStart(b, w)
    ensures b < UnitStart(a, w) + w ==> UnitStart(b, w) == UnitStart(a, w)
    ensures UnitStart(UnitStart(a, w) + w, w) == UnitStart(a, w) + w
  {
    if a >= w {
      UnitFacts(a - w, b - w, w);
    }
  }

  lemma OneMoreQword(u: nat)
    requires u % 64 == 0
    ensures (64 + u) % 64 == 0
  {
  }

  lemma {:induction false} QwordAligned(b: nat)
    ensures UnitStart(b, 64) % 64 == 0
  {
    if b >= 64 {
      var u := UnitStart(b - 64, 64);
      QwordAligned(b - 64);
      OneMoreQword(u);
      assert UnitStart(b, 64) == 64 + u;
    }
  }

  /** The access units that the field touches lie in a region of `length` bytes. */
  predicate InRegion(f: Field, w: nat, length: nat)
    requires IsWidth(w)
  {
    f.size > 0 ==> UnitStart(f.offset + f.size - 1, w) + w <= 8 * length
  }

  /** Some aligned unit of 64 bits lies wholly inside the field. */
  predicate HoldsQword(f: Field) {
    FirstQword(f) + 64 <= f.offset + f.size
  }

  /** Some chunk of the field is shifted by the whole width of an integer. */
  predicate Wide(f: Field, w: nat) {
    w == 64 && HoldsQword(f)
  }

  function FirstQword(f: Field): nat {
    if UnitStart(f.offset, 64) == f.offset then f.offset else UnitStart(f.offset, 64) + 64
  }

  // ------------------------------------------------------------- bits in and out of a buffer

  /** lai_buffer_put_at() */
  method BufferPutAt(buffer: array<byte>, value: nat, bitOffset: nat, numBits: nat)
    requires bitOffset + numBits <= 8 * buffer.Length
    modifies buffer
    ensures forall b: nat :: b < 8 * buffer.Length ==>
              Bit(buffer[..], b) == (old(Bit(buffer[..], b)) || (bitOffset <= b < bitOffset + numBits && BitAt(value, b - bitOffset)))
  {
    var progress := 0;
    while progress < numBits
      invariant progress <= numBits
      invariant forall b: nat :: b < 8 * buffer.Length ==>
                  Bit(buffer[..], b) == (old(Bit(buffer[..], b)) || (bitOffset <= b < bitOffset + progress && BitAt(value, b - bitOffset)))
    {
      var inByte := (bitOffset + progress) % 8;
      var accessSize := if numBits - progress < 8 - inByte then numBits - progress else 8 - inByte;
      var i := (bitOffset + progress) / 8;
      ghost var s := buffer[..];
      PieceIsByte(value, progress, accessSize, inByte);
      buffer[i] := OrByte(buffer[i], Piece(value, progress, accessSize, inByte));
      assert buffer[..] == s[i := OrByte(s[i], Piece(value, progress, accessSize, inByte))];
      forall b: nat | b < 8 * buffer.Length
        ensures Bit(buffer[..], b) == (old(Bit(buffer[..], b)) || (bitOffset <= b < bitOffset + progress + accessSize && BitAt(value, b - bitOffset)))
      {
        PutRound(s, value, progress, bitOffset + progress, accessSize, b);
      }
      progress := progress + accessSize;
    }
  }

  /** lai_buffer_get_at() */
  method BufferGetAt(buffer: array<byte>, bitOffset: nat, numBits: nat) returns (value: nat)
    requires bitOffset + numBits <= 8 * buffer.Length
    ensures forall i: nat :: BitAt(value, i) == (i < numBits && Bit(buffer[..], bitOffset + i))
  {
    value := 0;
    var progress := 0;
    forall i: nat ensures !BitAt(value, i) {
      ZeroAt(i);
    }
    while progress < numBits
      invariant progress <= numBits
      invariant forall i: nat :: BitAt(value, i) == (i < progress && Bit(buffer[..], bitOffset + i))
    {
      var inByte := (bitOffset + progress) % 8;
      var accessSize := if numBits - progress < 8 - inByte then numBits - progress else 8 - inByte;
      var source := buffer[(bitOffset + progress) / 8];
      ghost var before := value;
      value := Or(value, Piece(source, inByte, accessSize, progress));
      forall i: nat ensures BitAt(value, i) == (i < progress + accessSize && Bit(buffer[..], bitOffset + i)) {
        OrAt(before, Piece(source, inByte, accessSize, progress), i);
        PieceAt(source, inByte, accessSize, progress, i);
        if progress <= i < progress + accessSize {
          SameByte(bitOffset + progress, i - progress);
        }
      }
      progress := progress + accessSize;
    }
  }

  lemma SameByte(pos: nat, k: nat)
    requires pos % 8 + k < 8
    ensures (pos + k) / 8 == pos / 8 && (pos + k) % 8 == pos % 8 + k
  {
  }

  // ------------------------------------------------------------------------- region access

  /** lai_perform_write() to plain memory */
  method PerformWrite(region: array<byte>, offset: nat, n: nat, value: nat)
    requires offset + n <= region.Length
    modifies region
    ensures region[..] == WriteUnit(old(region[..]), offset, n, value)
  {
    var k, rest := 0, value;
    while k < n
      invariant k <= n && WriteUnit(region[..], offset + k, n - k, rest) == WriteUnit(old(region[..]), offset, n, value)
    {
      ghost var s := region[..];
      LowFits(rest, 8);
      ByteWidth();
      var b: byte := Low(rest, 8);
      region[offset + k] := b;
      assert region[..] == s[offset + k := b];
      rest := Shr(rest, 8);
      k := k + 1;
    }
  }

  /** The end of the last access unit that the field touches. */
  function HullEnd(f: Field, w: nat): nat
    requires IsWidth(w)
  {
    if f.size == 0 then UnitStart(f.offset, w) else UnitStart(f.offset + f.size - 1, w) + w
  }

  /** The chunk of the field that starts `progress` bits into it. */
  function ChunkBits(f: Field, w: nat, progress: nat): (n: nat)
    requires IsWidth(w) && progress < f.size
    ensures n > 0 && progress + n <= f.size
  {
    var bitOffset := f.offset + progress - UnitStart(f.offset + progress, w);
    if f.size - progress < w - bitOffset then f.size - progress else w - bitOffset
  }

  /** Where the loops of lai_read_field_internal() and lai_write_field_internal() stand. */
  predicate AtChunk(f: Field, w: nat, progress: nat, offset: nat)
    requires IsWidth(w)
  {
    && progress <= f.size
    && (progress < f.size ==> 8 * offset == UnitStart(f.offset + progress, w) && (progress > 0 ==> 8 * offset == f.offset + progress))
    && (w == 64 && 0 < progress < f.size ==> f.offset + progress == FirstQword(f))
    && (progress == f.size ==> 8 * offset == HullEnd(f, w))
  }

  /** The byte offset of the unit that holds the first bit of the field. */
  function FirstUnit(f: Field, w: nat): (offset: nat)
    requires IsWidth(w)
    ensures 8 * offset == UnitStart(f.offset, w)
  {
    UnitStart(f.offset, w) / 8
  }

  lemma ChunkStarts(f: Field, w: nat)
    requires IsWidth(w)
    ensures AtChunk(f, w, 0, FirstUnit(f, w))
  {
  }

  /** Bytes of an access unit. */
  function UnitBytes(w: nat): (n: nat)
    requires IsWidth(w)
    ensures 8 * n == w
  {
    w / 8
  }

  /** The unit of the next chunk lies in the region, and the chunk inside the unit. */
  lemma ChunkInRegion(f: Field, w: nat, progress: nat, offset: nat, length: nat)
    requires IsWidth(w) && AtChunk(f, w, progress, offset) && progress < f.size && InRegion(f, w, length)
    ensures 8 * offset <= f.offset + progress && f.offset + progress + ChunkBits(f, w, progress) <= 8 * offset + w
    ensures offset + UnitBytes(w) <= length
    ensures ChunkBits(f, w, progress) == 64 ==> w == 64 && HoldsQword(f)
  {
    UnitFacts(f.offset + progress, f.offset + f.size - 1, w);
  }

  lemma ChunkGoesOn(f: Field, w: nat, progress: nat, offset: nat)
    requires IsWidth(w) && AtChunk(f, w, progress, offset) && progress < f.size && ChunkBits(f, w, progress) < 64
    ensures AtChunk(f, w, progress + ChunkBits(f, w, progress), offset + UnitBytes(w))
    ensures progress + ChunkBits(f, w, progress) == f.size && w == 64 ==> !HoldsQword(f)
  {
    UnitFacts(f.offset + progress, f.offset + f.size - 1, w);
    if ChunkBits(f, w, progress) < f.size - progress {
      InnerChunk(f, w, progress, offset);
    } else {
      LastChunk(f, w, progress, offset);
    }
  }

  /** A chunk up to the end of its unit, with more of the field behind it. */
  lemma InnerChunk(f: Field, w: nat, progress: nat, offset: nat)
    requires IsWidth(w) && AtChunk(f, w, progress, offset) && progress < f.size && ChunkBits(f, w, progress) < 64
    requires ChunkBits(f, w, progress) < f.size - progress
    ensures AtChunk(f, w, progress + ChunkBits(f, w, progress), offset + UnitBytes(w))
  {
    var u, pos, n := 8 * offset, f.offset + progress, ChunkBits(f, w, progress);
    UnitFacts(pos, pos, w);
    assert u == UnitStart(pos, w) && pos + n == u + w == UnitStart(u + w, w);
    if w == 64 {
      assert progress == 0 && u < f.offset;
    }
  }

  /** A chunk up to the end of the field. */
  lemma LastChunk(f: Field, w: nat, progress: nat, offset: nat)
    requires IsWidth(w) && AtChunk(f, w, progress, offset) && progress < f.size && ChunkBits(f, w, progress) < 64
    requires ChunkBits(f, w, progress) == f.size - progress
    ensures AtChunk(f, w, f.size, offset + UnitBytes(w)) && (w == 64 ==> !HoldsQword(f))
  {
    var u, pos := 8 * offset, f.offset + progress;
    UnitFacts(pos, f.offset + f.size - 1, w);
    assert u == UnitStart(pos, w) <= pos < u + w && f.offset + f.size <= u + w;
  }

  /** Bit i of what is cut out of a unit is bit progress + i of the field. */
  lemma ChunkBit(region: seq<byte>, f: Field, progress: nat, offset: nat, bytes: nat, n: nat, i: nat)
    requires 8 * offset <= f.offset + progress && f.offset + progress + n <= 8 * (offset + bytes) && offset + bytes <= |region| && i < n
    ensures BitAt(Piece(ReadUnit(region, offset, bytes), f.offset + progress - 8 * offset, n, 0), i) == RegionBit(region, f, progress + i)
  {
    var bitOffset := f.offset + progress - 8 * offset;
    PieceAt(ReadUnit(region, offset, bytes), bitOffset, n, 0, i);
    ReadUnitAt(region, offset, bytes, bitOffset + i);
  }

  /** The first `progress` bits of the field have been joined to the buffer. */
  ghost predicate Joined(was: seq<byte>, cur: seq<byte>, region: seq<byte>, f: Field, progress: nat) {
    |cur| == |was| && forall b: nat {:trigger Bit(cur, b)} :: b < 8 * |cur| ==> Bit(cur, b) == (Bit(was, b) || (b < progress && RegionBit(region, f, b)))
  }

  /** One round of the read loop: a unit is read, and the bits of the chunk are joined to the buffer. */
  method ReadChunk(destination: array<byte>, region: array<byte>, f: Field, progress: nat, offset: nat, bytes: nat, n: nat, ghost was: seq<byte>)
    requires destination != region && progress + n <= 8 * destination.Length && offset + bytes <= region.Length
    requires 8 * offset <= f.offset + progress && f.offset + progress + n <= 8 * (offset + bytes)
    requires Joined(was, destination[..], region[..], f, progress)
    modifies destination
    ensures Joined(was, destination[..], region[..], f, progress + n)
  {
    var value := ReadUnit(region[..], offset, bytes);
    value := Piece(value, f.offset + progress - 8 * offset, n, 0);
    ghost var before := destination[..];
    BufferPutAt(destination, value, progress, n);
    forall b: nat | b < 8 * destination.Length
      ensures Bit(destination[..], b) == (Bit(was, b) || (b < progress + n && RegionBit(region[..], f, b)))
    {
      assert Bit(before, b) == (Bit(was, b) || (b < progress && RegionBit(region[..], f, b)));
      if progress <= b < progress + n {
        ChunkBit(region[..], f, progress, offset, bytes, n, b - progress);
      }
    }
  }

  /** lai_read_field_internal(): the bits of the field are joined to a buffer, whatever the access width. */
  method ReadFieldInternal(destination: array<byte>, f: Field, isMemory: bool, region: array<byte>) returns (status: Status)
    requires destination != region && f.size <= 8 * destination.Length
    requires AccessWidth(f, isMemory).Some? ==> InRegion(f, AccessWidth(f, isMemory).value, region.Length)
    modifies destination
    ensures status == Outcome(f, isMemory)
    ensures status == Done ==> Joined(old(destination[..]), destination[..], region[..], f, f.size)
  {
    if AccessWidth(f, isMemory).None? {
      return InvalidFlags;
    }
    var w := AccessWidth(f, isMemory).value;
    var progress: nat, offset: nat := 0, FirstUnit(f, w);
    ChunkStarts(f, w);
    while progress < f.size
      invariant AtChunk(f, w, progress, offset) && (progress == f.size > 0 ==> !Wide(f, w))
      invariant Joined(old(destination[..]), destination[..], region[..], f, progress)
    {
      var accessBits, bytes, next, nextOffset := NextChunk(f, w, progress, offset, region.Length);
      if accessBits == 64 {
        return WideShift;
      }
      ReadChunk(destination, region, f, progress, offset, bytes, accessBits, old(destination[..]));
      progress, offset := next, nextOffset;
    }
    status := Done;
  }

  /** Bit b of the field in the region. */
  predicate RegionBit(region: seq<byte>, f: Field, b: nat)
  {
    f.offset + b < 8 * |region| && Bit(region, f.offset + b)
  }

  /** How reading goes, and writing with a valid rule and enough bits to write. */
  function Outcome(f: Field, isMemory: bool): Status {
    if AccessWidth(f, isMemory).None? then InvalidFlags
    else if AccessWidth(f, isMemory) == Some(64) && HoldsQword(f) then WideShift
    else Done
  }

  // --------------------------------------------------------------------------------- writing

  /** What a bit of a touched access unit becomes when it lies outside the field. */
  predicate Beside(rule: Rule, old_: bool) {
    match rule
    case Preserve => old_
    case WriteOnes => true
    case WriteZeroes => false
  }

  /** The upper half of a 64-bit unit: the mask of a write is a size_t, which has 32 bits here. */
  predicate Unmasked(w: nat, b: nat) {
    w == 64 && b % 64 >= 32
  }

  /** Bit b of the region when `progress` bits of the field and the bits up to hullEnd are written. */
  predicate WrittenBit(was: seq<byte>, source: seq<byte>, f: Field, w: nat, hullStart: nat, rule: Rule, progress: nat, hullEnd: nat, b: nat)
    requires b < 8 * |was| && progress <= 8 * |source|
  {
    if hullStart <= b < hullEnd && Unmasked(w, b) then false
    else if f.offset <= b < f.offset + progress then Bit(source, b - f.offset)
    else if hullStart <= b < hullEnd then Beside(rule, Bit(was, b))
    else Bit(was, b)
  }

  ghost predicate Written(was: seq<byte>, cur: seq<byte>, source: seq<byte>, f: Field, w: nat, hullStart: nat, rule: Rule, progress: nat, hullEnd: nat) {
    && |cur| == |was| && progress <= 8 * |source|
    && forall b: nat {:trigger Bit(cur, b)} :: b < 8 * |cur| ==> Bit(cur, b) == WrittenBit(was, source, f, w, hullStart, rule, progress, hullEnd, b)
  }

  /** The mask of a chunk, cut down to the 32 bits of a size_t. */
  function WriteMask(n: nat, bitOffset: nat): nat {
    Low(Shl(Ones(n), bitOffset), 32)
  }

  lemma WriteMaskAt(n: nat, bitOffset: nat, i: nat)
    ensures BitAt(WriteMask(n, bitOffset), i) == (i < 32 && bitOffset <= i < bitOffset + n)
  {
    LowAt(Shl(Ones(n), bitOffset), 32, i);
    ShlAt(Ones(n), bitOffset, i);
    if i >= bitOffset {
      OnesAt(n, i - bitOffset);
    }
  }

  /** The unit that is written back: new bits under the mask, and the rest under its complement in 32 bits. */
  function Merged(value: nat, newVal: nat, n: nat, bitOffset: nat): nat {
    Or(And(value, AndNot(Ones(32), WriteMask(n, bitOffset))), And(Shl(newVal, bitOffset), WriteMask(n, bitOffset)))
  }

  lemma MergedAt(value: nat, newVal: nat, n: nat, bitOffset: nat, i: nat)
    ensures BitAt(Merged(value, newVal, n, bitOffset), i) ==
            (i < 32 && if bitOffset <= i < bitOffset + n then BitAt(newVal, i - bitOffset) else BitAt(value, i))
  {
    var mask := WriteMask(n, bitOffset);
    OrAt(And(value, AndNot(Ones(32), mask)), And(Shl(newVal, bitOffset), mask), i);
    AndAt(value, AndNot(Ones(32), mask), i);
    AndNotAt(Ones(32), mask, i);
    OnesAt(32, i);
    AndAt(Shl(newVal, bitOffset), mask, i);
    ShlAt(newVal, bitOffset, i);
    WriteMaskAt(n, bitOffset, i);
  }

  /** The value a unit starts from before the new bits go in. */
  function Background(rule: Rule, read: nat): nat {
    match rule
    case Preserve => read
    case WriteOnes => Ones(64)
    case WriteZeroes => 0
  }

  lemma BackgroundAt(rule: Rule, read: nat, i: nat)
    requires i < 64
    ensures BitAt(Background(rule, read), i) == Beside(rule, BitAt(read, i))
  {
    OnesAt(64, i);
    ZeroAt(i);
  }

  /** One round of the write loop: a unit is read or set, merged with the chunk and written back. */
  method WriteChunk(source: array<byte>, region: array<byte>, f: Field, rule: Rule, progress: nat, offset: nat, w: nat, bytes: nat, n: nat,
                    ghost was: seq<byte>, ghost hullStart: nat)
    requires source != region && progress + n <= 8 * source.Length && offset + bytes <= region.Length
    requires IsWidth(w) && 8 * bytes == w && (w == 64 ==> 8 * offset % 64 == 0)
    requires hullStart <= 8 * offset <= f.offset + progress && f.offset + progress + n <= 8 * (offset + bytes)
    requires Written(was, region[..], source[..], f, w, hullStart, rule, progress, 8 * offset)
    requires progress > 0 ==> f.offset + progress == 8 * offset
    modifies region
    ensures Written(was, region[..], source[..], f, w, hullStart, rule, progress + n, 8 * (offset + bytes))
  {
    var pos := f.offset + progress;
    var bitOffset := pos - 8 * offset;
    var newVal := BufferGetAt(source, progress, n);
    var read := ReadUnit(region[..], offset, bytes);
    var value := Merged(Background(rule, read), newVal, n, bitOffset);
    ghost var cur := region[..];
    PerformWrite(region, offset, bytes, value);
    ChunkWritten(was, cur, region[..], source[..], f, w, hullStart, rule, progress, n, offset, bytes, newVal, bitOffset, pos);
  }

  /** Where a round stands: a chunk of n bits at bit pos of the region, inside the unit from start to end. */
  predicate InRound(source: seq<byte>, f: Field, w: nat, hullStart: nat, progress: nat, n: nat, start: nat, end: nat, pos: nat) {
    && progress + n <= 8 * |source| && IsWidth(w) && end == start + w && (w == 64 ==> start % 64 == 0)
    && pos == f.offset + progress && hullStart <= start <= pos && pos + n <= end && (progress > 0 ==> pos == start)
  }

  /** The round on the whole region. */
  lemma ChunkWritten(was: seq<byte>, cur: seq<byte>, next: seq<byte>, source: seq<byte>, f: Field, w: nat, hullStart: nat, rule: Rule, progress: nat, n: nat,
                     offset: nat, bytes: nat, newVal: nat, bitOffset: nat, pos: nat)
    requires offset + bytes <= |cur| && bytes <= 8 && pos == 8 * offset + bitOffset
    requires InRound(source, f, w, hullStart, progress, n, 8 * offset, 8 * (offset + bytes), pos)
    requires Written(was, cur, source, f, w, hullStart, rule, progress, 8 * offset)
    requires forall i: nat {:trigger BitAt(newVal, i)} :: BitAt(newVal, i) == (i < n && Bit(source, progress + i))
    requires next == WriteUnit(cur, offset, bytes, Merged(Background(rule, ReadUnit(cur, offset, bytes)), newVal, n, bitOffset))
    ensures Written(was, next, source, f, w, hullStart, rule, progress + n, 8 * (offset + bytes))
  {
    forall b: nat {:trigger Bit(next, b)} | b < 8 * |cur|
      ensures Bit(next, b) == WrittenBit(was, source, f, w, hullStart, rule, progress + n, 8 * (offset + bytes), b)
    {
      var put := pos <= b < pos + n && BitAt(newVal, b - pos);
      MergedUnitAt(cur, rule, offset, bytes, newVal, n, bitOffset, pos, put, b);
      RoundBit(was, newVal, put, source, f, w, hullStart, rule, progress, n, 8 * offset, 8 * (offset + bytes), pos, b);
    }
  }

  lemma SourceBit(source: seq<byte>, newVal: nat, progress: nat, n: nat, i: nat, k: nat)
    requires progress + n <= 8 * |source| && i < n && k == progress + i
    requires forall j: nat {:trigger BitAt(newVal, j)} :: BitAt(newVal, j) == (j < n && Bit(source, progress + j))
    ensures BitAt(newVal, i) == Bit(source, k)
  {
  }

  /** Bit b behind a round on the unit from start to end, with a chunk of n bits at pos whose bit is put. */
  predicate RoundResult(rule: Rule, start: nat, end: nat, pos: nat, n: nat, cur: bool, put: bool, b: nat) {
    if start <= b < end then b < start + 32 && if pos <= b < pos + n then put else Beside(rule, cur)
    else cur
  }

  /** A unit that is written back, seen from bit b of the region; the chunk starts at bit pos. */
  lemma MergedUnitAt(cur: seq<byte>, rule: Rule, offset: nat, bytes: nat, newVal: nat, n: nat, bitOffset: nat, pos: nat, put: bool, b: nat)
    requires offset + bytes <= |cur| && bytes <= 8 && b < 8 * |cur| && pos == 8 * offset + bitOffset
    requires pos <= b < pos + n ==> put == BitAt(newVal, b - pos)
    ensures Bit(WriteUnit(cur, offset, bytes, Merged(Background(rule, ReadUnit(cur, offset, bytes)), newVal, n, bitOffset)), b) ==
            RoundResult(rule, 8 * offset, 8 * (offset + bytes), pos, n, Bit(cur, b), put, b)
  {
    WriteUnitAt(cur, offset, bytes, Merged(Background(rule, ReadUnit(cur, offset, bytes)), newVal, n, bitOffset), b);
    if 8 * offset <= b < 8 * (offset + bytes) {
      UnitBit(cur, rule, offset, bytes, newVal, n, bitOffset, b - 8 * offset, pos, b, put);
    }
  }

  /** What a round does to one bit, from what it was before the round to what it is behind it. */
  lemma RoundBit(was: seq<byte>, newVal: nat, put: bool, source: seq<byte>, f: Field, w: nat, hullStart: nat, rule: Rule, progress: nat, n: nat,
                 start: nat, end: nat, pos: nat, b: nat)
    requires b < 8 * |was| && InRound(source, f, w, hullStart, progress, n, start, end, pos)
    requires forall i: nat {:trigger BitAt(newVal, i)} :: BitAt(newVal, i) == (i < n && Bit(source, progress + i))
    requires put == (pos <= b < pos + n && BitAt(newVal, b - pos))
    ensures RoundResult(rule, start, end, pos, n, WrittenBit(was, source, f, w, hullStart, rule, progress, start, b), put, b) ==
            WrittenBit(was, source, f, w, hullStart, rule, progress + n, end, b)
  {
    if start <= b < end {
      UpperHalf(start, w, b);
      if pos <= b < pos + n {
        SourceBit(source, newVal, progress, n, b - pos, b - f.offset);
      }
    }
  }

  lemma UpperHalf(start: nat, w: nat, b: nat)
    requires IsWidth(w) && (w == 64 ==> start % 64 == 0) && start <= b < start + w
    ensures Unmasked(w, b) <==> b - start >= 32
  {
  }

  /** Bit i of the unit that is written back. */
  lemma UnitBit(cur: seq<byte>, rule: Rule, offset: nat, bytes: nat, newVal: nat, n: nat, bitOffset: nat, i: nat, pos: nat, b: nat, put: bool)
    requires offset + bytes <= |cur| && bytes <= 8 && i < 8 * bytes && b == 8 * offset + i && pos == 8 * offset + bitOffset
    requires pos <= b < pos + n ==> put == BitAt(newVal, b - pos)
    ensures BitAt(Merged(Background(rule, ReadUnit(cur, offset, bytes)), newVal, n, bitOffset), i) ==
            (i < 32 && if pos <= b < pos + n then put else Beside(rule, Bit(cur, b)))
  {
    if i >= bitOffset {
      assert i - bitOffset == b - pos;
    }
    var read := ReadUnit(cur, offset, bytes);
    MergedAt(Background(rule, read), newVal, n, bitOffset, i);
    BackgroundAt(rule, read, i);
    ReadUnitAt(cur, offset, bytes, i);
  }

  /** The units written so far start with the one of the field's first bit. */
  lemma HullGrows(f: Field, w: nat, progress: nat, offset: nat)
    requires IsWidth(w) && AtChunk(f, w, progress, offset) && progress < f.size
    ensures UnitStart(f.offset, w) <= 8 * offset && (progress > 0 ==> f.offset + progress == 8 * offset)
  {
    UnitFacts(f.offset, f.offset + progress, w);
  }

  /** A write goes through where a read does, with a known rule and a source of `length` bytes that is long enough. */
  predicate Writable(f: Field, isMemory: bool, length: nat) {
    Outcome(f, isMemory) == Done && f.size <= 8 * length && (f.size > 0 ==> WriteRule(f.flags).Some?)
  }

  /** lai_write_field_internal() */
  method WriteFieldInternal(source: array<byte>, f: Field, isMemory: bool, region: array<byte>) returns (status: Status)
    requires source != region
    requires AccessWidth(f, isMemory).Some? ==> InRegion(f, AccessWidth(f, isMemory).value, region.Length)
    modifies region
    ensures status == Done <==> Writable(f, isMemory, source.Length)
    ensures status == Done && f.size > 0 ==>
              var w := AccessWidth(f, isMemory).value;
              Written(old(region[..]), region[..], source[..], f, w, UnitStart(f.offset, w), WriteRule(f.flags).value, f.size, HullEnd(f, w))
    ensures f.size == 0 ==> region[..] == old(region[..])
    ensures status == InvalidFlags <==> f.flags % 16 > 4 || (f.size > 0 && f.flags / 32 > 2)
  {
    if AccessWidth(f, isMemory).None? {
      return InvalidFlags;
    }
    if f.size == 0 {
      return Done;
    }
    if WriteRule(f.flags).None? {
      return InvalidFlags;
    }
    status := WriteChunks(source, f, AccessWidth(f, isMemory).value, WriteRule(f.flags).value, region);
  }

  /** The chunk of one round of the read or write loop, and where the next round stands. */
  method NextChunk(f: Field, w: nat, progress: nat, offset: nat, length: nat) returns (n: nat, bytes: nat, next: nat, nextOffset: nat)
    requires IsWidth(w) && AtChunk(f, w, progress, offset) && progress < f.size && InRegion(f, w, length)
    ensures 0 < n && next == progress + n <= f.size && nextOffset == offset + bytes <= length && 8 * bytes == w
    ensures w == 64 ==> 8 * offset % 64 == 0
    ensures UnitStart(f.offset, w) <= 8 * offset <= f.offset + progress && f.offset + next <= 8 * nextOffset
    ensures progress > 0 ==> f.offset + progress == 8 * offset
    ensures n == 64 ==> Wide(f, w)
    ensures n != 64 ==> AtChunk(f, w, next, nextOffset) && (next == f.size ==> !Wide(f, w))
  {
    n, bytes := ChunkBits(f, w, progress), UnitBytes(w);
    next, nextOffset := progress + n, offset + bytes;
    ChunkInRegion(f, w, progress, offset, length);
    HullGrows(f, w, progress, offset);
    QwordAligned(f.offset + progress);
    if n != 64 {
      ChunkGoesOn(f, w, progress, offset);
    }
  }

  /** The loop of lai_write_field_internal(), with the flags decoded. */
  method WriteChunks(source: array<byte>, f: Field, w: nat, rule: Rule, region: array<byte>) returns (status: Status)
    requires source != region && IsWidth(w) && InRegion(f, w, region.Length) && f.size > 0
    modifies region
    ensures status == Done <==> !Wide(f, w) && f.size <= 8 * source.Length
    ensures status != InvalidFlags
    ensures status == Done ==> Written(old(region[..]), region[..], source[..], f, w, UnitStart(f.offset, w), rule, f.size, HullEnd(f, w))
  {
    var progress: nat, offset: nat := 0, FirstUnit(f, w);
    ghost var was, hullStart := region[..], UnitStart(f.offset, w);
    ChunkStarts(f, w);
    while progress < f.size
      invariant AtChunk(f, w, progress, offset) && (progress == f.size ==> !Wide(f, w))
      invariant Written(was, region[..], source[..], f, w, hullStart, rule, progress, 8 * offset)
    {
      status, progress, offset := WriteRound(source, f, w, rule, region, progress, offset, was, hullStart);
      if status != Done {
        return;
      }
    }
    status := Done;
  }

  /** A round of that loop. */
  method WriteRound(source: array<byte>, f: Field, w: nat, rule: Rule, region: array<byte>, progress: nat, offset: nat,
                    ghost was: seq<byte>, ghost hullStart: nat)
    returns (status: Status, next: nat, nextOffset: nat)
    requires source != region && IsWidth(w) && InRegion(f, w, region.Length) && AtChunk(f, w, progress, offset) && progress < f.size
    requires hullStart == UnitStart(f.offset, w) && progress <= 8 * source.Length
    requires Written(was, region[..], source[..], f, w, hullStart, rule, progress, 8 * offset)
    modifies region
    ensures status != Done ==> status != InvalidFlags && (Wide(f, w) || f.size > 8 * source.Length)
    ensures status == Done ==>
              && progress < next && AtChunk(f, w, next, nextOffset) && (next == f.size ==> !Wide(f, w))
              && Written(was, region[..], source[..], f, w, hullStart, rule, next, 8 * nextOffset)
  {
    var n, bytes;
    n, bytes, next, nextOffset := NextChunk(f, w, progress, offset, region.Length);
    if n == 64 {
      return WideShift, next, nextOffset;
    }
    if next > 8 * source.Length {
      return ShortSource, next, nextOffset;
    }
    WriteChunk(source, region, f, rule, progress, offset, w, bytes, n, was, hullStart);
    status := Done;
  }

  // ------------------------------------------------------------------- fields as values

  /** What lai_read_field() stores: an integer for up to eight bytes, otherwise a buffer. */
  datatype Contents = Number(n: nat) | Buffer(bytes: seq<byte>)

  /** Bit i of a value; there are none behind its end. */
  predicate ContentsBit(c: Contents, i: nat) {
    match c
    case Number(n) => BitAt(n, i)
    case Buffer(bytes) => i < 8 * |bytes| && Bit(bytes, i)
  }

  /** lai_read_field(): exactly the bits of the field, and zeros above them. */
  method ReadField(f: Field, isMemory: bool, region: array<byte>) returns (status: Status, c: Contents)
    requires AccessWidth(f, isMemory).Some? ==> InRegion(f, AccessWidth(f, isMemory).value, region.Length)
    ensures status == Outcome(f, isMemory)
    ensures status == InvalidFlags <==> f.flags % 16 > 4
    ensures status == Done ==> forall i: nat :: ContentsBit(c, i) == (i < f.size && RegionBit(region[..], f, i))
    ensures status == Done ==> (c.Number? <==> f.size <= 64)
  {
    var bytes := (f.size + 7) / 8;
    var buf := new byte[bytes](_ => 0);
    c := Number(0);
    ghost var zero := buf[..];
    forall b: nat | b < 8 * bytes ensures !Bit(zero, b) {
      ZeroAt(b % 8);
    }
    status := ReadFieldInternal(buf, f, isMemory, region);
    if status != Done {
      return;
    }
    assert forall b: nat :: b < 8 * bytes ==> Bit(buf[..], b) == (b < f.size && RegionBit(region[..], f, b));
    if bytes > 8 {
      c := Buffer(buf[..]);
    } else {
      var value := Collect(buf);
      c := Number(value);
    }
  }

  /** The loop of lai_read_field() that puts bytes together to an integer. */
  method Collect(buf: array<byte>) returns (value: nat)
    ensures forall i: nat :: BitAt(value, i) == (i < 8 * buf.Length && Bit(buf[..], i))
  {
    value := 0;
    forall i: nat ensures !BitAt(value, i) {
      ZeroAt(i);
    }
    var i := 0;
    while i < buf.Length
      invariant i <= buf.Length
      invariant forall k: nat :: BitAt(value, k) == (k < 8 * i && Bit(buf[..], k))
    {
      ghost var before := value;
      value := Or(value, Shl(buf[i], 8 * i));
      ByteWidth();
      forall k: nat ensures BitAt(value, k) == (k < 8 * (i + 1) && Bit(buf[..], k)) {
        OrAt(before, Shl(buf[i], 8 * i), k);
        ShlAt(buf[i], 8 * i, k);
        if k >= 8 * (i + 1) {
          NoHighBits(buf[i], 8, k - 8 * i);
        }
      }
      i := i + 1;
    }
  }

  /** Bit b lies in a unit that a write to the field touches, where the mask does not reach. */
  predicate Wiped(f: Field, w: nat, b: nat)
    requires IsWidth(w)
  {
    UnitStart(f.offset, w) <= b < HullEnd(f, w) && Unmasked(w, b)
  }

  /** What a write is for: the bits of the source in the field, the update rule beside it in its units, the rest as it was. */
  predicate Intended(f: Field, w: nat, rule: Rule, source: Contents, was: seq<byte>, b: nat)
    requires IsWidth(w) && b < 8 * |was|
  {
    if f.offset <= b < f.offset + f.size then ContentsBit(source, b - f.offset)
    else if UnitStart(f.offset, w) <= b < HullEnd(f, w) then Beside(rule, Bit(was, b))
    else Bit(was, b)
  }

  /** What a write does to every bit of the region: what it is for, but zeros where the mask does not reach. */
  ghost predicate FieldStored(f: Field, w: nat, rule: Rule, source: Contents, was: seq<byte>, cur: seq<byte>)
    requires IsWidth(w)
  {
    && |cur| == |was|
    && forall b: nat {:trigger Bit(cur, b)} :: b < 8 * |cur| ==> Bit(cur, b) == (!Wiped(f, w, b) && Intended(f, w, rule, source, was, b))
  }

  /** lai_write_field(): the bits of a buffer, or of the eight bytes of an integer. */
  method WriteField(f: Field, isMemory: bool, source: Contents, region: array<byte>) returns (status: Status)
    requires AccessWidth(f, isMemory).Some? ==> InRegion(f, AccessWidth(f, isMemory).value, region.Length)
    modifies region
    ensures status == Done <==> Writable(f, isMemory, if source.Buffer? then |source.bytes| else 8)
    ensures status == Done && f.size > 0 ==>
              FieldStored(f, AccessWidth(f, isMemory).value, WriteRule(f.flags).value, source, old(region[..]), region[..])
    ensures f.size == 0 ==> region[..] == old(region[..])
    ensures status == InvalidFlags <==> f.flags % 16 > 4 || (f.size > 0 && f.flags / 32 > 2)
    ensures status == Done && f.size > 0 ==>
              forall w: nat {:trigger Typed(f, isMemory, w)} :: Typed(f, isMemory, w) ==> UnitsWritten(f, w, source, old(region[..]), region[..])
  {
    var buf: array<byte>;
    match source {
      case Buffer(bytes) =>
        buf := new byte[|bytes|](i requires 0 <= i < |bytes| => bytes[i]);
        assert buf[..] == bytes;
      case Number(n) =>
        buf := new byte[8](_ => 0);
        ghost var zero := buf[..];
        PerformWrite(buf, 0, 8, n);
        forall b: nat | b < 64 ensures Bit(buf[..], b) == BitAt(n, b) {
          WriteUnitAt(zero, 0, 8, n, b);
        }
    }
    ghost var was := region[..];
    status := WriteFieldInternal(buf, f, isMemory, region);
    if status == Done && f.size > 0 {
      ByUnits(f, isMemory, source, was, region[..]);
    }
  }

  lemma DivisionSteps(a: nat, w: nat)
    requires IsWidth(w)
    ensures a < w ==> a / w == 0
    ensures a >= w ==> a / w == (a - w) / w + 1
  {
    if w == 8 {
    } else if w == 16 {
    } else if w == 32 {
    } else {
      assert w == 64;
    }
  }

  /** Units by division: where the unit of a starts and ends, seen from b. */
  lemma {:induction false} UnitByDivision(a: nat, b: nat, w: nat)
    requires IsWidth(w)
    ensures UnitStart(a, w) <= b <==> a / w <= b / w
    ensures b < UnitStart(a, w) + w <==> b / w <= a / w
    decreases a
  {
    DivisionSteps(a, w);
    DivisionSteps(b, w);
    if a >= w && b >= w {
      UnitByDivision(a - w, b - w, w);
    }
  }

  /** Bit b lies in a unit of w bits that holds a bit of the field. */
  predicate InUnits(f: Field, w: nat, b: nat)
    requires f.size > 0 && w > 0
  {
    f.offset / w <= b / w <= (f.offset + f.size - 1) / w
  }

  lemma UnitsOfBit(f: Field, w: nat, b: nat)
    requires IsWidth(w) && f.size > 0
    ensures UnitStart(f.offset, w) <= b < HullEnd(f, w) <==> InUnits(f, w, b)
  {
    UnitByDivision(f.offset, b, w);
    UnitByDivision(f.offset + f.size - 1, b, w);
  }

  /**
   What a write in units of w bits makes of bit b, read off the flags: a unit that holds no bit
   of the field is left alone; in the others the upper 32 of 64 bits are cleared, the field's
   bits are those of the source, and the rest is kept, set or cleared as bits 5 to 7 of the
   flags say.
   */
  predicate FlaggedBit(f: Field, w: nat, source: Contents, was: seq<byte>, b: nat)
    requires f.size > 0 && w > 0 && b < 8 * |was|
  {
    if !InUnits(f, w, b) then Bit(was, b)
    else if w == 64 && b % 64 >= 32 then false
    else if f.offset <= b < f.offset + f.size then ContentsBit(source, b - f.offset)
    else if f.flags / 32 == 0 then Bit(was, b)
    else f.flags / 32 == 1
  }

  ghost predicate UnitsWritten(f: Field, w: nat, source: Contents, was: seq<byte>, cur: seq<byte>)
    requires f.size > 0 && w > 0
  {
    && |cur| == |was| && f.flags / 32 <= 2
    && forall b: nat {:trigger Bit(cur, b)} :: b < 8 * |cur| ==> Bit(cur, b) == FlaggedBit(f, w, source, was, b)
  }

  lemma FieldInUnits(f: Field, w: nat, b: nat)
    requires IsWidth(w) && f.offset <= b < f.offset + f.size
    ensures InUnits(f, w, b)
  {
    UnitFacts(f.offset, b, w);
    UnitFacts(b, f.offset + f.size - 1, w);
    UnitsOfBit(f, w, b);
  }

  lemma ByUnit(f: Field, w: nat, rule: Rule, source: Contents, was: seq<byte>, b: nat)
    requires f.size > 0 && IsWidth(w) && WriteRule(f.flags) == Some(rule) && b < 8 * |was|
    ensures FlaggedBit(f, w, source, was, b) == (!Wiped(f, w, b) && Intended(f, w, rule, source, was, b))
  {
    UnitsOfBit(f, w, b);
    if f.offset <= b < f.offset + f.size {
      FieldInUnits(f, w, b);
    }
  }

  /** The write in its units. */
  lemma ByUnits(f: Field, isMemory: bool, source: Contents, was: seq<byte>, cur: seq<byte>)
    requires f.size > 0 && AccessWidth(f, isMemory).Some? && WriteRule(f.flags).Some?
    requires FieldStored(f, AccessWidth(f, isMemory).value, WriteRule(f.flags).value, source, was, cur)
    ensures forall w: nat {:trigger Typed(f, isMemory, w)} :: Typed(f, isMemory, w) ==> UnitsWritten(f, w, source, was, cur)
  {
    var w, rule := AccessWidth(f, isMemory).value, WriteRule(f.flags).value;
    forall b: nat {:trigger Bit(cur, b)} | b < 8 * |cur| ensures Bit(cur, b) == FlaggedBit(f, w, source, was, b) {
      ByUnit(f, w, rule, source, was, b);
    }
    forall v: nat | Typed(f, isMemory, v) ensures UnitsWritten(f, v, source, was, cur) {
      TypedOnce(f, isMemory, v, w);
    }
  }

  // ------------------------------------------------------------------------ buffer fields

  /** No chunk of the loops below starts 64 bits or more into the field: always so for sizes up to 64. */
  predicate ShiftsDefined(offset: nat, size: nat) {
    size == 0 || 8 * ((offset + size - 1) / 8) < offset + 64
  }

  /** Where the loops below stand: at the start, at the start of a byte, or at the end. */
  predicate AtFieldByte(offset: nat, size: nat, n: nat) {
    n <= size && (0 < n < size ==> (offset + n) % 8 == 0 && n >= 8 - offset % 8) && (n == size ==> ShiftsDefined(offset, size))
  }

  /** Bits of the field in the byte it has reached. */
  function ByteBits(offset: nat, size: nat, n: nat): (m: nat)
    requires n < size
    ensures 0 < m && n + m <= size && (offset + n) % 8 + m <= 8
  {
    var bit := (offset + n) % 8;
    if size - n > 8 - bit then 8 - bit else size - n
  }

  lemma NextByte(offset: nat, size: nat, n: nat)
    requires AtFieldByte(offset, size, n) && n < size
    ensures n < 64 ==> AtFieldByte(offset, size, n + ByteBits(offset, size, n))
    ensures n >= 64 ==> !ShiftsDefined(offset, size)
  {
  }

  lemma StartByte(offset: nat, size: nat)
    ensures AtFieldByte(offset, size, 0)
  {
  }

  /** The first n bits of the field are those of the value, the rest is as it was. */
  ghost predicate Stored(was: seq<byte>, cur: seq<byte>, offset: nat, n: nat, value: word) {
    |cur| == |was| && forall b: nat {:trigger Bit(cur, b)} :: b < 8 * |cur| ==> Bit(cur, b) == if offset <= b < offset + n then BitAt(value, b - offset) else Bit(was, b)
  }

  lemma StoreOn(was: seq<byte>, cur: seq<byte>, offset: nat, n: nat, m: nat, value: word)
    requires Stored(was, cur, offset, n, value) && offset + n + m <= 8 * |cur| && 0 < m && (offset + n) % 8 + m <= 8
    ensures Piece(value, n, m, (offset + n) % 8) < 256
    ensures var i, bit := (offset + n) / 8, (offset + n) % 8;
            Stored(was, cur[i := MixByte(cur[i], m, bit, Piece(value, n, m, bit))], offset, n + m, value)
  {
    var i, bit := (offset + n) / 8, (offset + n) % 8;
    PieceIsByte(value, n, m, bit);
    var next := cur[i := MixByte(cur[i], m, bit, Piece(value, n, m, bit))];
    forall b: nat | b < 8 * |cur|
      ensures Bit(next, b) == if offset <= b < offset + n + m then BitAt(value, b - offset) else Bit(was, b)
    {
      MixRound(cur, value, n, offset + n, m, b);
      assert Bit(cur, b) == if offset <= b < offset + n then BitAt(value, b - offset) else Bit(was, b);
    }
  }

  /** lai_write_buffer(): the bits of a buffer field become those of an integer, no others change. */
  method WriteBuffer(data: array<byte>, offset: nat, size: nat, value: word) returns (status: Status)
    requires offset + size <= 8 * data.Length
    modifies data
    ensures status == Done <==> ShiftsDefined(offset, size)
    ensures status == Done ==> Stored(old(data[..]), data[..], offset, size, value)
  {
    var n := 0;
    StartByte(offset, size);
    while n < size
      invariant AtFieldByte(offset, size, n) && Stored(old(data[..]), data[..], offset, n, value)
    {
      NextByte(offset, size, n);
      if n >= 64 {
        return WideShift;
      }
      var bit := (offset + n) % 8;
      var m := ByteBits(offset, size, n);
      var i := (offset + n) / 8;
      ghost var s := data[..];
      StoreOn(old(data[..]), s, offset, n, m, value);
      data[i] := MixByte(data[i], m, bit, Piece(value, n, m, bit));
      assert data[..] == s[i := MixByte(s[i], m, bit, Piece(value, n, m, bit))];
      n := n + m;
    }
    status := Done;
  }

  /** Where lai_read_buffer() takes bit i of a buffer field from. */
  function ReadPosition(offset: nat, i: nat): nat {
    if i < 8 - offset % 8 then offset - offset % 8 + i else offset + i
  }

  ghost predicate Fetched(data: seq<byte>, integer: nat, offset: nat, n: nat) {
    && offset + n <= 8 * |data|
    && forall i: nat {:trigger BitAt(integer, i)} :: BitAt(integer, i) == (i < n && i < 64 && Bit(data, ReadPosition(offset, i)))
  }

  lemma FetchOn(data: seq<byte>, integer: nat, offset: nat, size: nat, n: nat)
    requires Fetched(data, integer, offset, n) && AtFieldByte(offset, size, n) && n < size && offset + size <= 8 * |data|
    ensures var m := ByteBits(offset, size, n);
            Fetched(data, Or(integer, Low(Shl(And(data[(offset + n) / 8], Ones(m)), n), 64)), offset, n + m)
  {
    var m, curByte := ByteBits(offset, size, n), data[(offset + n) / 8];
    var toWrite := And(curByte, Ones(m));
    var next := Or(integer, Low(Shl(toWrite, n), 64));
    forall i: nat ensures BitAt(next, i) == (i < n + m && i < 64 && Bit(data, ReadPosition(offset, i))) {
      OrAt(integer, Low(Shl(toWrite, n), 64), i);
      LowAt(Shl(toWrite, n), 64, i);
      ShlAt(toWrite, n, i);
      if i >= n {
        AndAt(curByte, Ones(m), i - n);
        OnesAt(m, i - n);
      }
      if n <= i < n + m {
        SamePlace(offset, n, i);
      }
    }
  }

  lemma SamePlace(offset: nat, n: nat, i: nat)
    requires n == 0 || ((offset + n) % 8 == 0 && n >= 8 - offset % 8)
    requires n <= i < n + 8 - (offset + n) % 8
    ensures ReadPosition(offset, i) / 8 == (offset + n) / 8 && ReadPosition(offset, i) % 8 == i - n
  {
  }

  /** lai_read_buffer(): the first byte is masked but not shifted down to the field's first bit. */
  method ReadBuffer(data: array<byte>, offset: nat, size: nat) returns (status: Status, integer: nat)
    requires offset + size <= 8 * data.Length
    ensures status == Done <==> ShiftsDefined(offset, size)
    ensures status == Done ==> Fetched(data[..], integer, offset, size)
  {
    integer := 0;
    forall i: nat ensures !BitAt(integer, i) {
      ZeroAt(i);
    }
    var n := 0;
    StartByte(offset, size);
    while n < size
      invariant AtFieldByte(offset, size, n) && Fetched(data[..], integer, offset, n)
    {
      NextByte(offset, size, n);
      if n >= 64 {
        return WideShift, integer;
      }
      var m := ByteBits(offset, size, n);
      var curByte := data[(offset + n) / 8];
      FetchOn(data[..], integer, offset, size, n);
      integer := Or(integer, Low(Shl(And(curByte, Ones(m)), n), 64));
      n := n + m;
    }
    status := Done;
  }

  lemma {:induction false} Pow2At(n: nat, i: nat)
    ensures BitAt(Pow2(n), i) == (i == n)
  {
    if n == 0 {
      if i > 0 {
        ZeroAt(i - 1);
      }
    } else if i > 0 {
      Pow2At(n - 1, i - 1);
    }
  }

  /** lai_read_buffer() takes every bit from where the field has it. */
  ghost predicate ReadsField(data: seq<byte>, offset: nat, size: nat)
    requires offset + size <= 8 * |data|
  {
    forall i: nat {:trigger ReadPosition(offset, i)} :: i < size ==> Bit(data, ReadPosition(offset, i)) == Bit(data, offset + i)
  }

  /** Reading a buffer field gives its bits for all contents exactly when the field starts at a byte. */
  lemma ReadBufferIsRight(offset: nat, size: nat)
    ensures (forall data: seq<byte> :: offset + size <= 8 * |data| ==> ReadsField(data, offset, size)) <==> size == 0 || offset % 8 == 0
  {
    if size > 0 && offset % 8 != 0 {
      ByteWidth();
      assert Pow2(offset % 8) < 256 by {
        Pow2Grows(offset % 8, 7);
      }
      var data: seq<byte> := seq(offset + size, k => if k == offset / 8 then Pow2(offset % 8) else 0);
      Pow2At(offset % 8, offset % 8);
      Pow2At(offset % 8, 0);
      assert ReadPosition(offset, 0) == offset - offset % 8;
      assert Bit(data, offset + 0) && !Bit(data, ReadPosition(offset, 0));
      assert !ReadsField(data, offset, size);
    }
  }
}
