/**
 What field writes are for, and when they do it. On a machine whose size_t has 32 bits the
 mask of a write does not reach the upper half of a 64-bit unit; each law is stated with the
 exact condition under which that does no harm.
 */
module FieldLaws {
  import opened AmlTypes
  import opened FieldBits
  import opened Fields

  /** The intended effect of a write on every bit of the region. */
  ghost predicate FieldWritten(f: Field, w: nat, rule: Rule, source: Contents, was: seq<byte>, cur: seq<byte>)
    requires IsWidth(w)
  {
    |cur| == |was| && forall b: nat {:trigger Bit(cur, b)} :: b < 8 * |cur| ==> Bit(cur, b) == Intended(f, w, rule, source, was, b)
  }

  /** The region after a write that goes through. */
  function AfterWrite(f: Field, w: nat, rule: Rule, source: Contents, was: seq<byte>): (cur: seq<byte>)
    requires IsWidth(w)
    ensures |cur| == |was|
  {
    BytesOf((b: nat) => b < 8 * |was| && !Wiped(f, w, b) && Intended(f, w, rule, source, was, b), |was|)
  }

  lemma AfterWriteStores(f: Field, w: nat, rule: Rule, source: Contents, was: seq<byte>)
    requires IsWidth(w)
    ensures FieldStored(f, w, rule, source, was, AfterWrite(f, w, rule, source, was))
  {
    var p := (b: nat) => b < 8 * |was| && !Wiped(f, w, b) && Intended(f, w, rule, source, was, b);
    forall b: nat | b < 8 * |was| ensures Bit(BytesOf(p, |was|), b) == p(b) {
      BytesOfAt(p, |was|, b);
    }
  }

  function AllOnes(length: nat): (s: seq<byte>)
    ensures |s| == length
  {
    BytesOf((b: nat) => true, length)
  }

  lemma AllOnesAt(length: nat, b: nat)
    requires b < 8 * length
    ensures Bit(AllOnes(length), b)
  {
    BytesOfAt((b: nat) => true, length, b);
  }

  /** The field lies in the low half of one 64-bit unit. */
  predicate InLowHalf(f: Field) {
    f.offset + f.size <= UnitStart(f.offset, 64) + 32
  }

  /** The first bit of the field, or the first in an upper half behind it. */
  function UpperBit(f: Field): nat {
    if f.offset >= UnitStart(f.offset, 64) + 32 then f.offset else UnitStart(f.offset, 64) + 32
  }

  /** The unit of the field's first bit lies inside what a write touches, upper half and all. */
  lemma HalfFacts(f: Field)
    requires f.size > 0
    ensures Wiped(f, 64, UpperBit(f)) && UnitStart(f.offset, 64) <= UpperBit(f) < HullEnd(f, 64)
    ensures !InLowHalf(f) ==> f.offset <= UpperBit(f) < f.offset + f.size
    ensures InLowHalf(f) ==> UpperBit(f) >= f.offset + f.size
  {
    var u := UnitStart(f.offset, 64);
    QwordAligned(f.offset);
    UnitFacts(f.offset, f.offset + f.size - 1, 64);
    UpperHalf(u, 64, UpperBit(f));
  }

  /** In a low half no bit of the field is wiped, and the write touches that one unit. */
  lemma LowHalfStays(f: Field, b: nat)
    requires f.size > 0 && InLowHalf(f) && Wiped(f, 64, b)
    ensures f.offset + f.size <= b
  {
    var u := UnitStart(f.offset, 64);
    QwordAligned(f.offset);
    UnitFacts(f.offset, f.offset + f.size - 1, 64);
    UpperHalf(u, 64, b);
  }

  /** A write in 64-bit units into memory full of ones, from a source full of ones: what is wiped is zero. */
  lemma LossShown(f: Field, rule: Rule, length: nat, b: nat) returns (source: Contents, was: seq<byte>, cur: seq<byte>)
    requires f.size > 0 && b < 8 * length && Wiped(f, 64, b)
    ensures |was| == |cur| == length && FieldStored(f, 64, rule, source, was, cur) && Bit(was, b) && !Bit(cur, b)
    ensures f.offset <= b < f.offset + f.size ==> ContentsBit(source, b - f.offset)
  {
    source, was := Buffer(AllOnes(f.size)), AllOnes(length);
    cur := AfterWrite(f, 64, rule, source, was);
    AfterWriteStores(f, 64, rule, source, was);
    AllOnesAt(length, b);
    if f.offset <= b < f.offset + f.size {
      AllOnesAt(f.size, b - f.offset);
    }
    assert !Bit(cur, b);
  }

  // ---------------------------------------------------------------------- the laws

  /** Every write that goes through has the intended effect. */
  ghost predicate AlwaysWritten(f: Field, w: nat, rule: Rule, length: nat)
    requires IsWidth(w)
  {
    forall source: Contents, was: seq<byte>, cur: seq<byte> ::
      |was| == length && FieldStored(f, w, rule, source, was, cur) ==> FieldWritten(f, w, rule, source, was, cur)
  }

  /** Writes do what they are for exactly below 64 bits, and with WriteZeroes into the low half of one unit. */
  lemma WriteIsRightIff(f: Field, w: nat, rule: Rule, length: nat)
    requires IsWidth(w) && f.size > 0 && HullEnd(f, w) <= 8 * length
    ensures AlwaysWritten(f, w, rule, length) <==> w != 64 || (rule == WriteZeroes && InLowHalf(f))
  {
    if w != 64 || (rule == WriteZeroes && InLowHalf(f)) {
      forall source: Contents, was: seq<byte>, cur: seq<byte> | |was| == length && FieldStored(f, w, rule, source, was, cur)
        ensures FieldWritten(f, w, rule, source, was, cur)
      {
        WipedIsIntended(f, w, rule, source, was, cur);
      }
    } else {
      HalfFacts(f);
      var source, was, cur := LossShown(f, rule, length, UpperBit(f));
      assert Intended(f, w, rule, source, was, UpperBit(f)) && !Bit(cur, UpperBit(f));
    }
  }

  lemma WipedIsIntended(f: Field, w: nat, rule: Rule, source: Contents, was: seq<byte>, cur: seq<byte>)
    requires IsWidth(w) && f.size > 0 && FieldStored(f, w, rule, source, was, cur) && (w != 64 || (rule == WriteZeroes && InLowHalf(f)))
    ensures FieldWritten(f, w, rule, source, was, cur)
  {
    forall b: nat | b < 8 * |cur| ensures Bit(cur, b) == Intended(f, w, rule, source, was, b) {
      if Wiped(f, w, b) {
        LowHalfStays(f, b);
      }
    }
  }

  /** A field of 40 bits in memory with AnyAcc is written in 64-bit units: its upper byte is lost, and so is bit 50 beside it. */
  lemma QwordWriteLoses()
    ensures AccessWidth(Field(0, 40, 0), true) == Some(64) && WriteRule(0) == Some(Preserve)
    ensures var was, source := AllOnes(8), Buffer(AllOnes(8));
            var cur := AfterWrite(Field(0, 40, 0), 64, Preserve, source, was);
            && FieldStored(Field(0, 40, 0), 64, Preserve, source, was, cur)
            && ContentsBit(source, 39) && !Bit(cur, 39) && Bit(was, 50) && !Bit(cur, 50)
  {
    assert RoundUp(40) == 64;
    var f, was, source := Field(0, 40, 0), AllOnes(8), Buffer(AllOnes(8));
    AfterWriteStores(f, 64, Preserve, source, was);
    AllOnesAt(8, 39);
    AllOnesAt(8, 50);
    var cur := AfterWrite(f, 64, Preserve, source, was);
    assert Wiped(f, 64, 39) && Wiped(f, 64, 50);
    assert !Bit(cur, 39) && !Bit(cur, 50);
  }

  /** What a read of the field finds after a write. */
  lemma ReadAfterWrite(f: Field, w: nat, rule: Rule, source: Contents, was: seq<byte>, cur: seq<byte>, i: nat)
    requires IsWidth(w) && FieldStored(f, w, rule, source, was, cur) && f.offset + f.size <= 8 * |cur| && i < f.size
    ensures RegionBit(cur, f, i) == (ContentsBit(source, i) && !Wiped(f, w, f.offset + i))
  {
    assert Bit(cur, f.offset + i) == (ContentsBit(source, i) && !Wiped(f, w, f.offset + i));
  }

  ghost predicate AlwaysReadBack(f: Field, w: nat, rule: Rule, length: nat)
    requires IsWidth(w)
  {
    forall source: Contents, was: seq<byte>, cur: seq<byte>, i: nat {:trigger FieldStored(f, w, rule, source, was, cur), RegionBit(cur, f, i)} ::
      |was| == length && FieldStored(f, w, rule, source, was, cur) && i < f.size ==> RegionBit(cur, f, i) == ContentsBit(source, i)
  }

  /** A read finds what was written exactly below 64 bits, or in the low half of one unit. */
  lemma ReadBackIff(f: Field, w: nat, rule: Rule, length: nat)
    requires IsWidth(w) && f.size > 0 && HullEnd(f, w) <= 8 * length
    ensures AlwaysReadBack(f, w, rule, length) <==> w != 64 || InLowHalf(f)
  {
    if w != 64 || InLowHalf(f) {
      forall source: Contents, was: seq<byte>, cur: seq<byte>, i: nat | |was| == length && FieldStored(f, w, rule, source, was, cur) && i < f.size
        ensures RegionBit(cur, f, i) == ContentsBit(source, i)
      {
        ReadBack(f, w, rule, source, was, cur, i);
      }
    } else {
      HalfFacts(f);
      var b := UpperBit(f);
      var source, was, cur := LossShown(f, rule, length, b);
      assert RegionBit(cur, f, b - f.offset) == Bit(cur, b);
    }
  }

  lemma ReadBack(f: Field, w: nat, rule: Rule, source: Contents, was: seq<byte>, cur: seq<byte>, i: nat)
    requires IsWidth(w) && FieldStored(f, w, rule, source, was, cur) && HullEnd(f, w) <= 8 * |cur| && i < f.size && (w != 64 || InLowHalf(f))
    ensures RegionBit(cur, f, i) == ContentsBit(source, i)
  {
    ReadAfterWrite(f, w, rule, source, was, cur, i);
    if Wiped(f, w, f.offset + i) {
      LowHalfStays(f, f.offset + i);
    }
  }

  /** Under Preserve a write to one field leaves a field beside it alone, but for what is wiped. */
  lemma FieldsIndependent(f: Field, g: Field, w: nat, source: Contents, was: seq<byte>, cur: seq<byte>, i: nat)
    requires IsWidth(w) && FieldStored(f, w, Preserve, source, was, cur) && i < g.size
    requires f.offset + f.size <= g.offset || g.offset + g.size <= f.offset
    ensures RegionBit(cur, g, i) == (RegionBit(was, g, i) && !Wiped(f, w, g.offset + i))
  {
    if g.offset + i < 8 * |cur| {
      assert Bit(cur, g.offset + i) == (Bit(was, g.offset + i) && !Wiped(f, w, g.offset + i));
    }
  }

  ghost predicate AlwaysLeft(f: Field, g: Field, w: nat, length: nat)
    requires IsWidth(w)
  {
    forall source: Contents, was: seq<byte>, cur: seq<byte>, i: nat {:trigger FieldStored(f, w, Preserve, source, was, cur), RegionBit(cur, g, i)} ::
      |was| == length && FieldStored(f, w, Preserve, source, was, cur) && i < g.size ==> RegionBit(cur, g, i) == RegionBit(was, g, i)
  }

  /** No bit of g lies in the upper half of a 64-bit unit that a write to f touches. */
  predicate Spared(f: Field, g: Field, w: nat)
    requires IsWidth(w)
  {
    forall b: nat {:trigger Wiped(f, w, b)} :: g.offset <= b < g.offset + g.size ==> !Wiped(f, w, b)
  }

  /** A write under Preserve leaves a field beside it alone exactly if that field has no bit in the upper half of a 64-bit unit of the write. */
  lemma IndependentIff(f: Field, g: Field, w: nat, length: nat)
    requires IsWidth(w) && g.offset + g.size <= 8 * length && (f.offset + f.size <= g.offset || g.offset + g.size <= f.offset)
    ensures AlwaysLeft(f, g, w, length) <==> Spared(f, g, w)
  {
    if Spared(f, g, w) {
      forall source: Contents, was: seq<byte>, cur: seq<byte>, i: nat | |was| == length && FieldStored(f, w, Preserve, source, was, cur) && i < g.size
        ensures RegionBit(cur, g, i) == RegionBit(was, g, i)
      {
        FieldsIndependent(f, g, w, source, was, cur, i);
      }
    } else {
      var b: nat :| g.offset <= b < g.offset + g.size && Wiped(f, w, b);
      NeighbourLoses(f, g, length, b);
    }
  }

  lemma NeighbourLoses(f: Field, g: Field, length: nat, b: nat)
    requires g.offset <= b < g.offset + g.size <= 8 * length && Wiped(f, 64, b)
    ensures !AlwaysLeft(f, g, 64, length)
  {
    var source, was, cur := LossShown(f, Preserve, length, b);
    assert RegionBit(cur, g, b - g.offset) == Bit(cur, b);
    assert RegionBit(was, g, b - g.offset) == Bit(was, b);
  }

  ghost predicate AlwaysSame(f: Field, w1: nat, w2: nat, length: nat)
    requires IsWidth(w1) && IsWidth(w2)
  {
    forall source: Contents, was: seq<byte>, cur1: seq<byte>, cur2: seq<byte> ::
      |was| == length && FieldStored(f, w1, Preserve, source, was, cur1) && FieldStored(f, w2, Preserve, source, was, cur2) ==> cur1 == cur2
  }

  /** Under Preserve the region after a write is the same for any two widths but 64 and another. */
  lemma SameForWidthsIff(f: Field, w1: nat, w2: nat, length: nat)
    requires IsWidth(w1) && IsWidth(w2) && f.size > 0 && HullEnd(f, w1) <= 8 * length && HullEnd(f, w2) <= 8 * length
    ensures AlwaysSame(f, w1, w2, length) <==> (w1 == 64 <==> w2 == 64)
  {
    if w1 == 64 <==> w2 == 64 {
      forall source: Contents, was: seq<byte>, cur1: seq<byte>, cur2: seq<byte> |
        |was| == length && FieldStored(f, w1, Preserve, source, was, cur1) && FieldStored(f, w2, Preserve, source, was, cur2)
        ensures cur1 == cur2
      {
        SameForWidths(f, w1, w2, source, was, cur1, cur2);
      }
    } else if w1 == 64 {
      WidthsDiffer(f, w2, length);
    } else {
      WidthsDiffer(f, w1, length);
    }
  }

  lemma SameForWidths(f: Field, w1: nat, w2: nat, source: Contents, was: seq<byte>, cur1: seq<byte>, cur2: seq<byte>)
    requires IsWidth(w1) && IsWidth(w2) && (w1 == 64 <==> w2 == 64)
    requires FieldStored(f, w1, Preserve, source, was, cur1) && FieldStored(f, w2, Preserve, source, was, cur2)
    ensures cur1 == cur2
  {
    forall b: nat {:trigger Bit(cur1, b)} | b < 8 * |cur1| ensures Bit(cur1, b) == Bit(cur2, b) {
      assert Intended(f, w1, Preserve, source, was, b) == Intended(f, w2, Preserve, source, was, b);
    }
    SameBytes(cur1, cur2);
  }

  /** With everything set, a write in 64-bit units clears a bit that a narrower one keeps. */
  lemma WidthsDiffer(f: Field, w: nat, length: nat)
    requires IsWidth(w) && w != 64 && f.size > 0 && HullEnd(f, 64) <= 8 * length
    ensures !AlwaysSame(f, w, 64, length) && !AlwaysSame(f, 64, w, length)
  {
    HalfFacts(f);
    var b := UpperBit(f);
    var source, was, cur := LossShown(f, Preserve, length, b);
    var narrow := AfterWrite(f, w, Preserve, source, was);
    AfterWriteStores(f, w, Preserve, source, was);
    assert Bit(narrow, b) == Intended(f, w, Preserve, source, was, b);
  }

  /** Bits beside the field in its access units are lost under the other two rules. */
  lemma RulesDisturb(f: Field, w: nat, source: Contents, was: seq<byte>, cur: seq<byte>, b: nat)
    requires IsWidth(w) && b < 8 * |was| && UnitStart(f.offset, w) <= b < HullEnd(f, w) && !(f.offset <= b < f.offset + f.size)
    ensures FieldStored(f, w, WriteOnes, source, was, cur) ==> Bit(cur, b) == !Unmasked(w, b)
    ensures FieldStored(f, w, WriteZeroes, source, was, cur) ==> !Bit(cur, b)
  {
    if |cur| == |was| {
      assert Bit(cur, b) == Bit(cur, b);
    }
  }
}
