/**
 Register bit fields `[low..high]`: the mask with exactly those bits set, the
 value a field holds, and the read-modify-write merge that replaces a field
 inside a wider register value.
 */
module BitField {
  import opened Bits

  /** Number of bits in the field low..high; zero when high < low (an empty range). */
  function Width(low: nat, high: nat): nat
  {
    if low <= high then high - low + 1 else 0
  }

  /** The mask with exactly the bits low..high set. */
  function FieldMask(low: nat, high: nat): nat
  {
    Shl(Pow2(Width(low, high)) - 1, low)
  }

  /** The value held in bits low..high of v, as an unsigned number. */
  function FieldValue(v: nat, low: nat, high: nat): (f: nat)
    ensures f < Pow2(Width(low, high))
  {
    Shr(v, low) % Pow2(Width(low, high))
  }

  /** Python's `(background & ~mask) | ((data << low) & mask)`: the register value written back. */
  function Merge(data: nat, low: nat, mask: nat, background: nat): nat
  {
    Or(And(Shl(data, low), mask), AndNot(background, mask))
  }

  /** Bit i of the field mask is set exactly when low <= i <= high. */
  lemma FieldMaskBit(low: nat, high: nat, i: nat)
    ensures Bit(FieldMask(low, high), i) == if low <= i <= high then 1 else 0
  {
    BitShl(Pow2(Width(low, high)) - 1, low, i);
    if low <= i {
      BitOnes(Width(low, high), i - low);
    }
  }

  /** Python's extraction `(v & mask) >> low` yields the field's value. */
  lemma ExtractIsFieldValue(v: nat, low: nat, high: nat)
    ensures Shr(And(v, FieldMask(low, high)), low) == FieldValue(v, low, high)
  {
    var lhs := Shr(And(v, FieldMask(low, high)), low);
    forall i: nat
      ensures Bit(lhs, i) == Bit(FieldValue(v, low, high), i)
    {
      BitShr(And(v, FieldMask(low, high)), low, i);
      BitAnd(v, FieldMask(low, high), i + low);
      FieldMaskBit(low, high, i + low);
      BitMod(Shr(v, low), Width(low, high), i);
      BitShr(v, low, i);
    }
    BitsEqual(lhs, FieldValue(v, low, high));
  }

  /** Bit by bit, the merge takes the field from data and every other bit from the background. */
  lemma MergeBit(data: nat, low: nat, high: nat, background: nat, i: nat)
    ensures Bit(Merge(data, low, FieldMask(low, high), background), i)
         == if low <= i <= high then Bit(data, i - low) else Bit(background, i)
  {
    var mask := FieldMask(low, high);
    BitOr(And(Shl(data, low), mask), AndNot(background, mask), i);
    BitAnd(Shl(data, low), mask, i);
    BitAndNot(background, mask, i);
    BitShl(data, low, i);
    FieldMaskBit(low, high, i);
  }

  /** Replaces bits low..high of background with the low bits of data. */
  function InsertField(background: nat, low: nat, high: nat, data: nat): (r: nat)
    ensures FieldValue(r, low, high) == data % Pow2(Width(low, high))
    ensures AndNot(r, FieldMask(low, high)) == AndNot(background, FieldMask(low, high))
  {
    var r := Merge(data, low, FieldMask(low, high), background);
    InsertedField(data, low, high, background);
    KeptOutside(data, low, high, background);
    r
  }

  /** Reading a field back after the merge gives the data, truncated to the field width. */
  lemma InsertedField(data: nat, low: nat, high: nat, background: nat)
    ensures FieldValue(Merge(data, low, FieldMask(low, high), background), low, high)
         == data % Pow2(Width(low, high))
  {
    var r := Merge(data, low, FieldMask(low, high), background);
    forall i: nat
      ensures Bit(FieldValue(r, low, high), i) == Bit(data % Pow2(Width(low, high)), i)
    {
      BitMod(Shr(r, low), Width(low, high), i);
      BitShr(r, low, i);
      MergeBit(data, low, high, background, i + low);
      BitMod(data, Width(low, high), i);
    }
    BitsEqual(FieldValue(r, low, high), data % Pow2(Width(low, high)));
  }

  /** The merge leaves every bit outside the field as the background had it. */
  lemma KeptOutside(data: nat, low: nat, high: nat, background: nat)
    ensures AndNot(Merge(data, low, FieldMask(low, high), background), FieldMask(low, high))
         == AndNot(background, FieldMask(low, high))
  {
    var mask := FieldMask(low, high);
    var r := Merge(data, low, mask, background);
    forall i: nat
      ensures Bit(AndNot(r, mask), i) == Bit(AndNot(background, mask), i)
    {
      BitAndNot(r, mask, i);
      BitAndNot(background, mask, i);
      MergeBit(data, low, high, background, i);
      FieldMaskBit(low, high, i);
    }
    BitsEqual(AndNot(r, mask), AndNot(background, mask));
  }
}
