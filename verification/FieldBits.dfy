/**
 Bytes in memory seen as one line of bits, and what the masks and shifts of opregion.c and
 exec-operand.c do to single bits of it.
 */
module FieldBits {
  import opened Bits
  import opened AmlTypes

  /** Bit b of a little-endian buffer. */
  predicate Bit(s: seq<byte>, b: nat)
    requires b < 8 * |s|
  {
    BitAt(s[b / 8], b % 8)
  }

  /** (value >> progress) & ((1 << n) - 1), moved to bit `shift` */
  function Piece(value: nat, progress: nat, n: nat, shift: nat): nat {
    Shl(And(Shr(value, progress), Ones(n)), shift)
  }

  lemma PieceAt(value: nat, progress: nat, n: nat, shift: nat, i: nat)
    ensures BitAt(Piece(value, progress, n, shift), i) == (shift <= i < shift + n && BitAt(value, progress + i - shift))
  {
    ShlAt(And(Shr(value, progress), Ones(n)), shift, i);
    if i >= shift {
      AndAt(Shr(value, progress), Ones(n), i - shift);
      ShrAt(value, progress, i - shift);
      OnesAt(n, i - shift);
    }
  }

  lemma PieceFits(value: nat, progress: nat, n: nat, shift: nat)
    ensures Piece(value, progress, n, shift) < Pow2(shift + n)
  {
    forall i: nat | i >= shift + n ensures !BitAt(Piece(value, progress, n, shift), i) {
      PieceAt(value, progress, n, shift, i);
    }
    FitsByBits(Piece(value, progress, n, shift), shift + n);
  }

  lemma {:induction false} Pow2Grows(m: nat, n: nat)
    requires m <= n
    ensures Pow2(m) <= Pow2(n)
  {
    if m < n {
      Pow2Grows(m, n - 1);
    }
  }

  lemma ByteWidth()
    ensures Pow2(8) == 256
  {
    assert Pow2(4) == 16;
  }

  /** byte | piece, for a piece inside the byte */
  function OrByte(b: byte, piece: nat): byte
    requires piece < 256
  {
    ByteWidth(); BitwiseFits(b, piece, 8); Or(b, piece)
  }

  /** (byte & ~mask) | piece, for a mask of n bits from `shift` on */
  function MixByte(b: byte, n: nat, shift: nat, piece: nat): byte
    requires piece < 256
  {
    ByteWidth(); MixFits(b, n, shift, piece, 8); Mix(b, n, shift, piece)
  }

  /** (x & ~mask) | piece */
  function Mix(x: nat, n: nat, shift: nat, piece: nat): nat {
    Or(AndNot(x, Shl(Ones(n), shift)), piece)
  }

  lemma MixAt(x: nat, n: nat, shift: nat, piece: nat, i: nat)
    ensures BitAt(Mix(x, n, shift, piece), i) == ((BitAt(x, i) && !(shift <= i < shift + n)) || BitAt(piece, i))
  {
    OrAt(AndNot(x, Shl(Ones(n), shift)), piece, i);
    AndNotAt(x, Shl(Ones(n), shift), i);
    ShlAt(Ones(n), shift, i);
    if i >= shift {
      OnesAt(n, i - shift);
    }
  }

  lemma MixFits(x: nat, n: nat, shift: nat, piece: nat, width: nat)
    requires x < Pow2(width) && piece < Pow2(width)
    ensures Mix(x, n, shift, piece) < Pow2(width)
  {
    forall i: nat | i >= width ensures !BitAt(Mix(x, n, shift, piece), i) {
      MixAt(x, n, shift, piece, i);
      NoHighBits(x, width, i);
      NoHighBits(piece, width, i);
    }
    FitsByBits(Mix(x, n, shift, piece), width);
  }

  lemma PieceIsByte(value: nat, progress: nat, n: nat, shift: nat)
    requires shift + n <= 8
    ensures Piece(value, progress, n, shift) < 256
  {
    PieceFits(value, progress, n, shift);
    Pow2Grows(shift + n, 8);
    ByteWidth();
  }

  /** One round of lai_buffer_put_at(), seen from bit b: n bits of value from `progress` on go to bit position pos. */
  lemma PutRound(s: seq<byte>, value: nat, progress: nat, pos: nat, n: nat, b: nat)
    requires pos < 8 * |s| && b < 8 * |s| && pos % 8 + n <= 8
    ensures Piece(value, progress, n, pos % 8) < 256
    ensures Bit(s[pos / 8 := OrByte(s[pos / 8], Piece(value, progress, n, pos % 8))], b) ==
            (Bit(s, b) || (pos <= b < pos + n && BitAt(value, progress + b - pos)))
  {
    var i, shift := pos / 8, pos % 8;
    PieceIsByte(value, progress, n, shift);
    var piece := Piece(value, progress, n, shift);
    if b / 8 == i {
      OrAt(s[i], piece, b % 8);
      PieceAt(value, progress, n, shift, b % 8);
      assert b - pos == b % 8 - shift;
    }
  }

  /** One round of lai_write_buffer(), seen from bit b. */
  lemma MixRound(s: seq<byte>, value: nat, progress: nat, pos: nat, n: nat, b: nat)
    requires pos < 8 * |s| && b < 8 * |s| && pos % 8 + n <= 8
    ensures Piece(value, progress, n, pos % 8) < 256
    ensures Bit(s[pos / 8 := MixByte(s[pos / 8], n, pos % 8, Piece(value, progress, n, pos % 8))], b) ==
            if pos <= b < pos + n then BitAt(value, progress + b - pos) else Bit(s, b)
  {
    var i, shift := pos / 8, pos % 8;
    PieceIsByte(value, progress, n, shift);
    var piece := Piece(value, progress, n, shift);
    if b / 8 == i {
      MixAt(s[i], n, shift, piece, b % 8);
      PieceAt(value, progress, n, shift, b % 8);
      assert b - pos == b % 8 - shift;
    }
  }

  // -------------------------------------------------------------------- access units

  /** n bytes read as one little-endian number */
  function ReadUnit(s: seq<byte>, offset: nat, n: nat): nat
    requires offset + n <= |s|
    decreases n
  {
    if n == 0 then 0 else s[offset] + Shl(ReadUnit(s, offset + 1, n - 1), 8)
  }

  /** The low 8 * n bits of v stored as n bytes */
  function WriteUnit(s: seq<byte>, offset: nat, n: nat, v: nat): (r: seq<byte>)
    requires offset + n <= |s|
    ensures |r| == |s|
    decreases n
  {
    if n == 0 then s
    else LowFits(v, 8); ByteWidth(); WriteUnit(s[offset := Low(v, 8)], offset + 1, n - 1, Shr(v, 8))
  }

  lemma {:induction false} JoinAt(lo: nat, hi: nat, k: nat, i: nat)
    requires lo < Pow2(k)
    ensures BitAt(lo + Shl(hi, k), i) == if i < k then BitAt(lo, i) else BitAt(hi, i - k)
  {
    if k > 0 {
      assert (lo + Shl(hi, k)) / 2 == lo / 2 + Shl(hi, k - 1);
      if i > 0 {
        JoinAt(lo / 2, hi, k - 1, i - 1);
      }
    }
  }

  lemma {:induction false} ReadUnitAt(s: seq<byte>, offset: nat, n: nat, i: nat)
    requires offset + n <= |s|
    ensures BitAt(ReadUnit(s, offset, n), i) == (i < 8 * n && Bit(s, 8 * offset + i))
    decreases n
  {
    if n == 0 {
      ZeroAt(i);
    } else {
      ByteWidth();
      JoinAt(s[offset], ReadUnit(s, offset + 1, n - 1), 8, i);
      if i >= 8 {
        ReadUnitAt(s, offset + 1, n - 1, i - 8);
      }
    }
  }

  lemma {:induction false} WriteUnitAt(s: seq<byte>, offset: nat, n: nat, v: nat, b: nat)
    requires offset + n <= |s| && b < 8 * |s|
    ensures Bit(WriteUnit(s, offset, n, v), b) == if 8 * offset <= b < 8 * (offset + n) then BitAt(v, b - 8 * offset) else Bit(s, b)
    decreases n
  {
    if n > 0 {
      LowFits(v, 8);
      ByteWidth();
      var s1 := s[offset := Low(v, 8)];
      WriteUnitAt(s1, offset + 1, n - 1, Shr(v, 8), b);
      if b / 8 == offset {
        LowAt(v, 8, b % 8);
        assert b - 8 * offset == b % 8;
      } else if 8 * (offset + 1) <= b < 8 * (offset + n) {
        ShrAt(v, 8, b - 8 * (offset + 1));
      }
    }
  }

  // ------------------------------------------------------------- memory made of given bits

  function Pack(p: nat -> bool, k: nat, n: nat): nat
    decreases n
  {
    if n == 0 then 0 else (if p(k) then 1 else 0) + 2 * Pack(p, k + 1, n - 1)
  }

  lemma {:induction false} PackAt(p: nat -> bool, k: nat, n: nat, i: nat)
    ensures BitAt(Pack(p, k, n), i) == (i < n && p(k + i))
    decreases n
  {
    if n == 0 {
      ZeroAt(i);
    } else if i > 0 {
      PackAt(p, k + 1, n - 1, i - 1);
    }
  }

  function PackByte(p: nat -> bool, k: nat): byte {
    PackFits(p, k, 8); ByteWidth(); Pack(p, k, 8)
  }

  lemma PackFits(p: nat -> bool, k: nat, n: nat)
    ensures Pack(p, k, n) < Pow2(n)
  {
    forall i: nat | i >= n ensures !BitAt(Pack(p, k, n), i) {
      PackAt(p, k, n, i);
    }
    FitsByBits(Pack(p, k, n), n);
  }

  /** The bytes whose bits are given by p. */
  function BytesOf(p: nat -> bool, length: nat): (s: seq<byte>)
    ensures |s| == length
  {
    seq(length, i requires 0 <= i < length => PackByte(p, 8 * i))
  }

  lemma BytesOfAt(p: nat -> bool, length: nat, b: nat)
    requires b < 8 * length
    ensures Bit(BytesOf(p, length), b) == p(b)
  {
    PackAt(p, 8 * (b / 8), 8, b % 8);
  }

  /** Two stretches of memory with the same bits are the same. */
  lemma SameBytes(s: seq<byte>, t: seq<byte>)
    requires |s| == |t| && forall b: nat {:trigger Bit(s, b)} :: b < 8 * |s| ==> Bit(s, b) == Bit(t, b)
    ensures s == t
  {
    forall k | 0 <= k < |s| ensures s[k] == t[k] {
      forall i: nat ensures BitAt(s[k], i) == BitAt(t[k], i) {
        if i < 8 {
          assert Bit(s, 8 * k + i) == Bit(t, 8 * k + i);
          assert (8 * k + i) / 8 == k && (8 * k + i) % 8 == i;
        } else {
          ByteWidth();
          NoHighBits(s[k], 8, i);
          NoHighBits(t[k], 8, i);
        }
      }
      SameBits(s[k], t[k]);
    }
  }
}
