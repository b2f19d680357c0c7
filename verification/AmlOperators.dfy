/** What the operators on single bits compute, and the loops they compute it with. */
module AmlOperators {
  import opened AmlTypes
  import opened AmlMachine
  import opened Bits

  /** FindSetLeftBit yields one more than the number of the highest bit that is set, 0 if none is. */
  lemma {:induction false} LeftShiftsIsHighest(a: nat)
    requires a > 0
    ensures LeftShifts(a) > 0 && BitAt(a, LeftShifts(a) - 1) && forall i :: i >= LeftShifts(a) ==> !BitAt(a, i)
  {
    if a / 2 > 0 {
      LeftShiftsIsHighest(a / 2);
    }
    forall i | i >= LeftShifts(a) ensures !BitAt(a, i) {
      if a / 2 == 0 {
        ZeroAt(i - 1);
      }
    }
  }

  /** With `room` bits inside the word, shifting left loses the lowest set bit last. */
  lemma {:induction false} RightShiftsIsLowest(a: nat, room: nat)
    requires 0 < a < Pow2(room)
    ensures var r := RightShifts(a, room);
            0 < r <= room && BitAt(a, room - r) && forall i :: 0 <= i < room - r ==> !BitAt(a, i)
    decreases room
  {
    LowFits(a, room - 1);
    var b := Low(a, room - 1);
    var r := RightShifts(a, room);
    if b == 0 {
      forall i | 0 <= i < room - 1 ensures !BitAt(a, i) {
        LowAt(a, room - 1, i);
        ZeroAt(i);
      }
      if !BitAt(a, room - 1) {
        forall i: nat ensures BitAt(a, i) == BitAt(0, i) {
          ZeroAt(i);
          if i >= room {
            NoHighBits(a, room, i);
          }
        }
        SameBits(a, 0);
      }
    } else {
      RightShiftsIsLowest(b, room - 1);
      LowAt(a, room - 1, room - r);
      forall i | 0 <= i < room - r ensures !BitAt(a, i) {
        LowAt(a, room - 1, i);
      }
    }
  }

  /** What the two operators promise, in the words of the ACPI specification, section 19.6. */
  lemma FoundBits(a: word)
    ensures a == 0 ==> FindSetLeftBit(a) == 0 && FindSetRightBit(a) == 0
    ensures a != 0 ==> 1 <= FindSetRightBit(a) <= FindSetLeftBit(a) <= 64
    ensures a != 0 ==> BitAt(a, FindSetLeftBit(a) - 1) && forall i :: i >= FindSetLeftBit(a) ==> !BitAt(a, i)
    ensures a != 0 ==> BitAt(a, FindSetRightBit(a) - 1) && forall i :: 0 <= i < FindSetRightBit(a) - 1 ==> !BitAt(a, i)
  {
    WordWidth();
    if a != 0 {
      LeftShiftsIsHighest(a);
      LeftShiftsBound(a, 64);
      RightShiftsIsLowest(a, 64);
      assert BitAt(a, FindSetRightBit(a) - 1);
    }
  }

  lemma {:induction false} ComplementAt(a: nat, n: nat, i: nat)
    requires a < Pow2(n) && i < n
    ensures a <= Ones(n) && BitAt(Ones(n) - a, i) == !BitAt(a, i)
  {
    OnesIsMax(n);
    OnesIsMax(n - 1);
    assert Ones(n) - a == 2 * (Ones(n - 1) - a / 2) + (1 - a % 2);
    if i > 0 {
      ComplementAt(a / 2, n - 1, i - 1);
      assert (Ones(n) - a) / 2 == Ones(n - 1) - a / 2;
    }
  }

  /** NAnd and NOr work bit by bit on all 64 bits. */
  lemma NegatedBits(a: word, b: word, i: nat)
    requires i < 64
    ensures BitAt(NotWord(a), i) == !BitAt(a, i)
    ensures BitAt(NotWord(AndWord(a, b)), i) == !(BitAt(a, i) && BitAt(b, i))
    ensures BitAt(NotWord(OrWord(a, b)), i) == !(BitAt(a, i) || BitAt(b, i))
  {
    WordWidth();
    OnesIsMax(64);
    ComplementAt(a, 64, i);
    ComplementAt(AndWord(a, b), 64, i);
    ComplementAt(OrWord(a, b), 64, i);
    AndAt(a, b, i);
    OrAt(a, b, i);
  }

  /** A left shift drops what leaves the word, and a right shift what falls off the end. */
  lemma ShiftedBits(a: word, n: nat, i: nat)
    requires n < 64 && i < 64
    ensures BitAt(ShlWord(a, n), i) == (i >= n && BitAt(a, i - n))
    ensures BitAt(ShrWord(a, n), i) == BitAt(a, n + i)
  {
    LowAt(Shl(a, n), 64, i);
    ShlAt(a, n, i);
    ShrAt(a, n, i);
  }

  /** The loop of FINDSETLEFTBIT_OP. */
  method CountLeftBit(a: word) returns (msb: nat)
    ensures msb == FindSetLeftBit(a)
  {
    msb := 0;
    var x: nat := a;
    while x != 0
      invariant msb + LeftShifts(x) == LeftShifts(a)
    {
      x := x / 2;
      msb := msb + 1;
    }
  }

  /** One round of the loop below, on a word that has not lost its last bit. */
  lemma OneShift(y: nat, lsb: nat)
    requires lsb <= 64 && y < Pow2(64 - lsb) && Shl(y, lsb) != 0
    ensures lsb < 64 && Low(y, 63 - lsb) < Pow2(63 - lsb)
    ensures Shl(y, lsb) * 2 % WORD_SIZE == Shl(Low(y, 63 - lsb), lsb + 1)
    ensures RightShifts(y, 64 - lsb) == 1 + RightShifts(Low(y, 63 - lsb), 63 - lsb)
  {
    ShlZero(y, lsb);
    LowFits(y, 63 - lsb);
    ShiftOut(y, lsb + 1);
  }

  /** The loop of FINDSETRIGHTBIT_OP: the word is shifted left until nothing is left of it. */
  method CountRightBit(a: word) returns (r: nat)
    ensures r == FindSetRightBit(a)
  {
    var lsb := 0;
    var x: word := a;
    WordWidth();
    ghost var y: nat := a;
    assert Shl(y, 0) == x;
    while x != 0
      invariant 0 <= lsb <= 64 && y < Pow2(64 - lsb) && x == Shl(y, lsb)
      invariant lsb + RightShifts(y, 64 - lsb) == RightShifts(a, 64)
      decreases 64 - lsb
    {
      OneShift(y, lsb);
      lsb := lsb + 1;
      x := x * 2 % WORD_SIZE;
      y := Low(y, 64 - lsb);
    }
    ShlZero(y, lsb);
    r := if lsb == 0 then 0 else 65 - lsb;
  }

  lemma {:induction false} ShlZero(y: nat, n: nat)
    ensures Shl(y, n) == 0 <==> y == 0
  {
    if n > 0 {
      ShlZero(y, n - 1);
    }
  }

  /** One more place to the left within 64 bits loses the highest bit that is left. */
  lemma ShiftOut(y: nat, n: nat)
    requires 0 < n <= 64 && y < Pow2(64 - (n - 1))
    ensures Shl(y, n - 1) * 2 % WORD_SIZE == Shl(Low(y, 64 - n), n)
  {
    WordWidth();
    ShlOfLow(y, n, 64 - n);
    LowIsRemainder(Shl(y, n), 64);
  }

  lemma {:induction false} ShlOfLow(y: nat, n: nat, m: nat)
    ensures Low(Shl(y, n), n + m) == Shl(Low(y, m), n)
  {
    if n > 0 {
      ShlOfLow(y, n - 1, m);
    }
  }
}
