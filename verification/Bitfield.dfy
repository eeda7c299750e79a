/** The bit-field template of `src/libane/bitfield.h`, for every underlying 32- or 64-bit type,
    position and length, and the hand-written `set_nid` of `src/libane/ane.c`.

    Values of the underlying type are kept as words; `AsSigned` reads a word as the two's
    complement number that a signed type means by it. */
module Bitfields {
  import opened Bits

  /** The template parameters: `T`, `N` and `S`. */
  datatype Field = Field(width: nat, signed: bool, pos: nat, len: nat) {

    /** The static checks, for the types the library uses; `1 << S` needs `S < 64`. */
    predicate Legal() {
      (width == 32 || width == 64) && pos + len <= width && 0 < len < 64 && (signed ==> len > 1)
    }

    predicate Holds(x: nat) {
      x < Pow2(width)
    }

    function Mask(): nat {
      FieldMask(pos, len)
    }
  }

  /** `x >> n` on a signed type: the sign bit is shifted in. */
  function Asr(width: nat, x: nat, n: nat): nat
    requires n < width
  {
    if Bit(x, width - 1) then Or(Shr(x, n), FieldMask(width - n, n)) else Shr(x, n)
  }

  function AsSigned(width: nat, x: nat): int
    requires width > 0
  {
    if x < Pow2(width - 1) then x else x - Pow2(width)
  }

  /** `operator T()`. */
  function Read(f: Field, data: nat): nat
    requires f.Legal()
  {
    if f.signed then
      Asr(f.width, Shl(f.width, And(data, f.Mask()), f.width - f.len - f.pos), f.width - f.len)
    else
      Shr(And(data, f.Mask()), f.pos)
  }

  /** `operator=`. */
  function Write(f: Field, data: nat, value: nat): nat
    requires f.Legal() && f.Holds(data)
  {
    FieldMaskBound(f.pos, f.len, f.width);
    Or(And(data, Not(f.width, f.Mask())), And(Shl(f.width, value, f.pos), f.Mask()))
  }

  /** `max` and `min`: the extreme values of the type, shifted. */
  function Max(f: Field): int
    requires f.Legal()
  {
    if f.signed then Shr(Pow2(f.width - 1) - 1, f.width - f.len) else Shr(Pow2(f.width) - 1, f.width - f.len)
  }

  function Min(f: Field): int
    requires f.Legal()
  {
    if f.signed then AsSigned(f.width, Asr(f.width, Pow2(f.width - 1), f.width - f.len)) else 0
  }

  function Number(f: Field, x: nat): int
    requires f.Legal()
  {
    if f.signed then AsSigned(f.width, x) else x
  }

  /** The two assertions of `operator=`. */
  predicate InRange(f: Field, value: nat)
    requires f.Legal()
  {
    Min(f) <= Number(f, value) <= Max(f)
  }

  // ----- Reading and writing, bit by bit -----

  lemma WriteBits(f: Field, data: nat, value: nat, i: nat)
    requires f.Legal() && f.Holds(data)
    ensures Bit(Write(f, data, value), i) <==>
            if f.pos <= i < f.pos + f.len then Bit(value, i - f.pos) else Bit(data, i)
  {
    hide Bit, And, Or, Shl, FieldMask, Pow2;
    var mask := f.Mask();
    FieldMaskBound(f.pos, f.len, f.width);
    OrBits(And(data, Not(f.width, mask)), And(Shl(f.width, value, f.pos), mask), i);
    AndBits(data, Not(f.width, mask), i);
    AndBits(Shl(f.width, value, f.pos), mask, i);
    NotBits(f.width, mask, i);
    MaskBits(f.pos, f.len, i);
    ShlBits(f.width, value, f.pos, i);
    BoundBits(data, f.width);
  }

  lemma ReadBits(f: Field, data: nat, i: nat)
    requires f.Legal()
    ensures Bit(Read(f, data), i) <==>
            if i < f.len then Bit(data, f.pos + i)
            else f.signed && i < f.width && Bit(data, f.pos + f.len - 1)
  {
    hide Bit, And, Or, Shl, Shr, FieldMask, Pow2;
    var masked := And(data, f.Mask());
    if f.signed {
      var up := f.width - f.len - f.pos;
      var x := Shl(f.width, masked, up);
      assert Bit(x, f.width - 1) <==> Bit(data, f.pos + f.len - 1) by {
        MaskedShl(f, data, f.width - 1);
      }
      var n := f.width - f.len;
      ShrBits(x, n, i);
      MaskedShl(f, data, n + i);
      OrBits(Shr(x, n), FieldMask(f.width - n, n), i);
      MaskBits(f.width - n, n, i);
    } else {
      ShrBits(masked, f.pos, i);
      AndBits(data, f.Mask(), f.pos + i);
      MaskBits(f.pos, f.len, f.pos + i);
    }
  }

  lemma MaskedShl(f: Field, data: nat, i: nat)
    requires f.Legal()
    ensures Bit(Shl(f.width, And(data, f.Mask()), f.width - f.len - f.pos), i) <==>
            f.width - f.len <= i < f.width && Bit(data, f.pos + f.len + i - f.width)
  {
    var up := f.width - f.len - f.pos;
    ShlBits(f.width, And(data, f.Mask()), up, i);
    if i >= up {
      AndBits(data, f.Mask(), i - up);
      MaskBits(f.pos, f.len, i - up);
    }
  }

  // ----- The laws of a field -----

  lemma WriteHolds(f: Field, data: nat, value: nat)
    requires f.Legal() && f.Holds(data)
    ensures f.Holds(Write(f, data, value))
  {
    hide Write;
    BoundBits(data, f.width);
    forall i: nat | i >= f.width ensures !Bit(Write(f, data, value), i) {
      WriteBits(f, data, value, i);
    }
    BoundBits(Write(f, data, value), f.width);
  }

  lemma ReadHolds(f: Field, data: nat)
    requires f.Legal()
    ensures f.Holds(Read(f, data))
  {
    hide Read;
    forall i: nat | i >= f.width ensures !Bit(Read(f, data), i) {
      ReadBits(f, data, i);
    }
    BoundBits(Read(f, data), f.width);
  }

  /** What a read after a write returns, also when the written value does not fit. */
  function Wrapped(f: Field, value: nat): nat
    requires f.Legal()
  {
    var low := Low(value, f.len);
    Pow2Mono(f.len, f.width);
    if f.signed && low >= Pow2(f.len - 1) then Pow2(f.width) - Pow2(f.len) + low else low
  }

  lemma WrappedBits(f: Field, value: nat, i: nat)
    requires f.Legal()
    ensures Bit(Wrapped(f, value), i) <==>
            if i < f.len then Bit(value, i) else f.signed && i < f.width && Bit(value, f.len - 1)
  {
    hide Low, Bit, Pow2;
    var low := Low(value, f.len);
    LowBits(value, f.len, i);
    LowBits(value, f.len, f.len - 1);
    TopBit(low, f.len);
    if f.signed && low >= Pow2(f.len - 1) {
      SignFill(low, f.len, f.width);
      OrBits(FieldMask(f.len, f.width - f.len), low, i);
      MaskBits(f.len, f.width - f.len, i);
    }
  }

  /** Filling the bits above `n` with ones. */
  lemma SignFill(low: nat, n: nat, width: nat)
    requires low < Pow2(n) && n <= width
    ensures Or(FieldMask(n, width - n), low) == Pow2(width) - Pow2(n) + low
  {
    hide Or, Pow2;
    var ones: nat := Pow2(width - n) - 1;
    OrLow(ones, low, n);
    Pow2Add(width - n, n);
    MulDistributes(ones, 1, Pow2(n));
  }

  lemma Pow2One()
    ensures Pow2(1) == 2
  {
  }

  lemma TopBit(x: nat, n: nat)
    requires n > 0 && x < Pow2(n)
    ensures Bit(x, n - 1) <==> x >= Pow2(n - 1)
  {
    hide Shr, Low, Pow2;
    Split(x, n - 1);
    ShrBound(x, n - 1, 1);
    Pow2Next(n - 1);
    Pow2One();
  }

  /** Reading back what was written, whatever was there before. */
  lemma ReadAfterWrite(f: Field, data: nat, value: nat)
    requires f.Legal() && f.Holds(data)
    ensures Read(f, Write(f, data, value)) == Wrapped(f, value)
  {
    hide Read, Write, Wrapped, Bit;
    var d := Write(f, data, value);
    forall i: nat ensures Bit(Read(f, d), i) <==> Bit(Wrapped(f, value), i) {
      ReadBits(f, d, i);
      WrappedBits(f, value, i);
      WriteBits(f, data, value, f.pos + i);
      WriteBits(f, data, value, f.pos + f.len - 1);
    }
    SameBits(Read(f, d), Wrapped(f, value));
  }

  /** The bounds are those of an `S`-bit number. */
  lemma Bounds(f: Field)
    requires f.Legal()
    ensures Max(f) == if f.signed then Pow2(f.len - 1) - 1 else Pow2(f.len) - 1
    ensures Min(f) == if f.signed then -1 * Pow2(f.len - 1) else 0
  {
    hide Shr, Low, Bit, Pow2, Asr;
    var n := f.width - f.len;
    if f.signed {
      ShrOnes(f.len - 1, n);
      SignExtendedMin(f);
    } else {
      ShrOnes(f.len, n);
    }
  }

  lemma ShrOnes(a: nat, n: nat)
    ensures Shr(Pow2(a + n) - 1, n) == Pow2(a) - 1
  {
    hide Shr, Low;
    var ones: nat := Pow2(a) - 1;
    Pow2Add(a, n);
    MulDistributes(ones, 1, Pow2(n));
    Join(ones, Pow2(n) - 1, n);
  }

  lemma SignExtendedMin(f: Field)
    requires f.Legal() && f.signed
    ensures AsSigned(f.width, Asr(f.width, Pow2(f.width - 1), f.width - f.len)) == -1 * Pow2(f.len - 1)
  {
    hide Shr, Low, Bit, Or, Pow2, FieldMask;
    var w, n, half := f.width, f.width - f.len, Pow2(f.len - 1);
    Pow2Next(w - 1);
    Pow2Next(f.len - 1);
    TopBit(Pow2(w - 1), w);
    Pow2Add(f.len - 1, n);
    Join(half, 0, n);
    SignFill(half, f.len, w);
    OrComm(FieldMask(f.len, n), half);
    Pow2Mono(f.len - 1, w - 1);
  }

  lemma WrappedSigned(f: Field, value: nat)
    requires f.Legal() && f.Holds(value) && f.signed
    ensures Wrapped(f, value) == value <==> -1 * Pow2(f.len - 1) <= AsSigned(f.width, value) < Pow2(f.len - 1)
  {
    hide Low, Shr, Pow2;
    var w, s := f.width, f.len;
    Pow2Next(w - 1);
    Pow2Next(s - 1);
    Pow2Mono(s - 1, w - 1);
    Pow2Mono(s, w);
    if value < Pow2(s - 1) {
      LowSmall(value, s);
    } else if value >= Pow2(w) - Pow2(s - 1) {
      var ones: nat := Pow2(w - s) - 1;
      Pow2Add(w - s, s);
      MulDistributes(ones, 1, Pow2(s));
      Join(ones, value - (Pow2(w) - Pow2(s)), s);
    }
  }

  /** A value is read back unchanged exactly when the assertions of `operator=` accept it. */
  lemma ReadBackIffInRange(f: Field, data: nat, value: nat)
    requires f.Legal() && f.Holds(data) && f.Holds(value)
    ensures Read(f, Write(f, data, value)) == value <==> InRange(f, value)
  {
    hide Read, Write, Max, Min, Low, Shr, Pow2;
    ReadAfterWrite(f, data, value);
    Bounds(f);
    if f.signed {
      WrappedSigned(f, value);
    } else if value < Pow2(f.len) {
      LowSmall(value, f.len);
    }
  }

  /** Every value that is read is one that may be written. */
  lemma ReadInRange(f: Field, data: nat)
    requires f.Legal() && f.Holds(data)
    ensures f.Holds(Read(f, data)) && InRange(f, Read(f, data))
  {
    hide Read, Write, InRange;
    ReadHolds(f, data);
    WriteOfRead(f, data);
    ReadBackIffInRange(f, data, Read(f, data));
  }

  lemma WriteOfRead(f: Field, data: nat)
    requires f.Legal() && f.Holds(data)
    ensures Write(f, data, Read(f, data)) == data
  {
    hide Read, Write;
    var d := Write(f, data, Read(f, data));
    forall i: nat ensures Bit(d, i) <==> Bit(data, i) {
      WriteBits(f, data, Read(f, data), i);
      if f.pos <= i {
        ReadBits(f, data, i - f.pos);
      }
    }
    SameBits(d, data);
  }

  lemma LastWriteWins(f: Field, data: nat, v: nat, u: nat)
    requires f.Legal() && f.Holds(data)
    ensures f.Holds(Write(f, data, v)) && Write(f, Write(f, data, v), u) == Write(f, data, u)
  {
    hide Write;
    WriteHolds(f, data, v);
    var d, e := Write(f, Write(f, data, v), u), Write(f, data, u);
    forall i: nat ensures Bit(d, i) <==> Bit(e, i) {
      WriteBits(f, data, v, i);
      WriteBits(f, Write(f, data, v), u, i);
      WriteBits(f, data, u, i);
    }
    SameBits(d, e);
  }

  /** Two fields of one word that share no bit; their types may differ in signedness. */
  predicate Disjoint(f: Field, g: Field) {
    f.Legal() && g.Legal() && f.width == g.width && (f.pos + f.len <= g.pos || g.pos + g.len <= f.pos)
  }

  lemma WritePreservesOther(f: Field, g: Field, data: nat, v: nat)
    requires Disjoint(f, g) && f.Holds(data)
    ensures Read(g, Write(f, data, v)) == Read(g, data)
  {
    hide Read, Write, Bit;
    var d := Write(f, data, v);
    forall i: nat ensures Bit(Read(g, d), i) <==> Bit(Read(g, data), i) {
      ReadBits(g, d, i);
      ReadBits(g, data, i);
      WriteBits(f, data, v, g.pos + i);
      WriteBits(f, data, v, g.pos + g.len - 1);
    }
    SameBits(Read(g, d), Read(g, data));
  }

  lemma WritesCommute(f: Field, g: Field, data: nat, v: nat, u: nat)
    requires Disjoint(f, g) && f.Holds(data)
    ensures f.Holds(Write(f, data, v)) && f.Holds(Write(g, data, u))
    ensures Write(g, Write(f, data, v), u) == Write(f, Write(g, data, u), v)
  {
    hide Write;
    WriteHolds(f, data, v);
    WriteHolds(g, data, u);
    var d, e := Write(g, Write(f, data, v), u), Write(f, Write(g, data, u), v);
    forall i: nat ensures Bit(d, i) <==> Bit(e, i) {
      WriteBits(f, data, v, i);
      WriteBits(g, Write(f, data, v), u, i);
      WriteBits(g, data, u, i);
      WriteBits(f, Write(g, data, u), v, i);
    }
    SameBits(d, e);
  }

  // ----- The template as an object -----

  /** `x + y` and `x - y` in the underlying type. */
  function Plus(f: Field, x: nat, y: nat): nat {
    Low(x + y, f.width)
  }

  function Minus(f: Field, x: nat, y: nat): nat
    requires f.Holds(y)
  {
    Low(x + Pow2(f.width) - y, f.width)
  }

  /** What `+=` and `-=` demand.  In a signed type the sum must not overflow, and it must satisfy
      the assertions; in an unsigned type it is taken modulo 2^width before they are checked. */
  predicate Addable(f: Field, x: nat, y: nat)
    requires f.Legal()
  {
    if f.signed then Min(f) <= Number(f, x) + Number(f, y) <= Max(f) else InRange(f, Plus(f, x, y))
  }

  predicate Subtractable(f: Field, x: nat, y: nat)
    requires f.Legal() && f.Holds(y)
  {
    if f.signed then Min(f) <= Number(f, x) - Number(f, y) <= Max(f) else InRange(f, Minus(f, x, y))
  }

  /** The sum is then a value of the field, and is the sum of the numbers unless it wrapped. */
  lemma SumOfNumbers(f: Field, x: nat, y: nat)
    requires f.Legal() && f.Holds(x) && f.Holds(y) && Addable(f, x, y)
    ensures f.Holds(Plus(f, x, y)) && InRange(f, Plus(f, x, y))
    ensures f.signed || x + y < Pow2(f.width) ==> Number(f, Plus(f, x, y)) == Number(f, x) + Number(f, y)
  {
    hide Low, Pow2, Min, Max;
    if f.signed {
      WordOf(f, Number(f, x) + Number(f, y), x + y);
    } else if x + y < Pow2(f.width) {
      LowSmall(x + y, f.width);
    }
  }

  lemma DifferenceOfNumbers(f: Field, x: nat, y: nat)
    requires f.Legal() && f.Holds(x) && f.Holds(y) && Subtractable(f, x, y)
    ensures f.Holds(Minus(f, x, y)) && InRange(f, Minus(f, x, y))
    ensures f.signed || y <= x ==> Number(f, Minus(f, x, y)) == Number(f, x) - Number(f, y)
  {
    hide Low, Pow2, Min, Max;
    if f.signed {
      WordOf(f, Number(f, x) - Number(f, y), x + Pow2(f.width) - y);
    } else if y <= x {
      Join(1, x - y, f.width);
    }
  }

  /** A number of the field that is congruent to `x` is what the low bits of `x` mean. */
  lemma WordOf(f: Field, number: int, x: nat)
    requires f.Legal() && f.signed && Min(f) <= number <= Max(f)
    requires x == number || x == number + Pow2(f.width) || x == number + 2 * Pow2(f.width)
    ensures Number(f, Low(x, f.width)) == number
  {
    hide Low, Pow2, Min, Max, AsSigned;
    Bounds(f);
    Pow2Mono(f.len - 1, f.width - 1);
    LowOf(f.width, number, x);
  }

  lemma LowOf(width: nat, number: int, x: nat)
    requires width > 0 && -1 * Pow2(width - 1) <= number < Pow2(width - 1)
    requires x == number || x == number + Pow2(width) || x == number + 2 * Pow2(width)
    ensures AsSigned(width, Low(x, width)) == number
  {
    hide Low, Shr, Pow2;
    var p := Pow2(width);
    assert p == 2 * Pow2(width - 1) by { HalfOf(width); }
    var word: nat := if number < 0 then number + p else number;
    if x == word {
      LowSmall(x, width);
    } else if x == word + p {
      Join(1, word, width);
    } else {
      Join(2, word, width);
    }
  }

  lemma HalfOf(width: nat)
    requires width > 0
    ensures Pow2(width) == 2 * Pow2(width - 1)
  {
  }

  class Bitfield {
    const field: Field
    var data: nat

    ghost predicate Valid() reads this {
      field.Legal() && field.Holds(data)
    }

    constructor (field: Field, data: nat)
      requires field.Legal() && field.Holds(data)
      ensures Valid() && this.field == field && this.data == data
    {
      this.field, this.data := field, data;
    }

    method Get() returns (value: nat)
      requires Valid()
      ensures value == Read(field, data) && field.Holds(value) && InRange(field, value)
    {
      ReadInRange(field, data);
      value := Read(field, data);
    }

    method Assign(value: nat)
      requires Valid() && field.Holds(value) && InRange(field, value)
      modifies this
      ensures Valid() && data == Write(field, old(data), value) && Read(field, data) == value
    {
      WriteHolds(field, data, value);
      ReadBackIffInRange(field, data, value);
      data := Write(field, data, value);
    }

    method AddAssign(rhs: nat)
      requires Valid() && field.Holds(rhs) && Addable(field, Read(field, data), rhs)
      modifies this
      ensures Valid() && Read(field, data) == Plus(field, Read(field, old(data)), rhs)
      ensures field.signed || Read(field, old(data)) + rhs < Pow2(field.width) ==>
        Number(field, Read(field, data)) == Number(field, Read(field, old(data))) + Number(field, rhs)
      ensures data == Write(field, old(data), Read(field, data))
    {
      ReadInRange(field, data);
      SumOfNumbers(field, Read(field, data), rhs);
      Assign(Plus(field, Read(field, data), rhs));
    }

    method SubAssign(rhs: nat)
      requires Valid() && field.Holds(rhs) && Subtractable(field, Read(field, data), rhs)
      modifies this
      ensures Valid() && Read(field, data) == Minus(field, Read(field, old(data)), rhs)
      ensures field.signed || rhs <= Read(field, old(data)) ==>
        Number(field, Read(field, data)) == Number(field, Read(field, old(data))) - Number(field, rhs)
      ensures data == Write(field, old(data), Read(field, data))
    {
      ReadInRange(field, data);
      DifferenceOfNumbers(field, Read(field, data), rhs);
      Assign(Minus(field, Read(field, data), rhs));
    }
  }

  /** `+= rhs` followed by `-= rhs` is allowed, and restores the word. */
  lemma AddThenSubtract(f: Field, data: nat, rhs: nat)
    requires f.Legal() && f.Holds(data) && f.Holds(rhs) && Addable(f, Read(f, data), rhs)
    ensures var sum := Plus(f, Read(f, data), rhs);
      var d := Write(f, data, sum);
      f.Holds(d) && Read(f, d) == sum && Subtractable(f, sum, rhs) && Write(f, d, Minus(f, sum, rhs)) == data
  {
    hide Read, Write, Low, Number, Min, Max, Pow2;
    var value := Read(f, data);
    var sum := Plus(f, value, rhs);
    ReadInRange(f, data);
    SumOfNumbers(f, value, rhs);
    ReadBackIffInRange(f, data, sum);
    SumDifference(f.width, value, rhs);
    LastWriteWins(f, data, sum, value);
    WriteOfRead(f, data);
  }

  lemma SumDifference(width: nat, x: nat, rhs: nat)
    requires x < Pow2(width) && rhs < Pow2(width)
    ensures Low(Low(x + rhs, width) + Pow2(width) - rhs, width) == x
  {
    hide Low, Shr;
    var p := Pow2(width);
    if x + rhs < p {
      LowSmall(x + rhs, width);
      Join(1, x, width);
    } else {
      Join(1, x + rhs - p, width);
      LowSmall(x, width);
    }
  }

  // ----- set_nid -----

  /** The `nid` field of the first header word of a task descriptor. */
  const NID: Field := Field(32, false, 16, 8)

  const TD_HEADER_KEEP: nat := 0x0F00_FFFF

  /** `set_nid`: the new value of the header word; `nid` is the word of the `int` argument. */
  function SetNid(hdr0: nat, nid: nat): nat {
    Or(And(hdr0, TD_HEADER_KEEP), Shl(32, And(nid, 0xFF), 16))
  }

  /** `set_nid` assigns the `nid` field and clears the four highest bits. */
  lemma SetNidIsFieldWrite(hdr0: nat, nid: nat)
    requires hdr0 < Pow2(32)
    ensures InRange(NID, And(nid, 0xFF))
    ensures SetNid(hdr0, nid) == And(Write(NID, hdr0, And(nid, 0xFF)), FieldMask(0, 28))
  {
    hide Write, And, Or, Shl, Pow2, FieldMask, Max, Min, Low, Bit;
    var low := And(nid, 0xFF);
    var d, e := SetNid(hdr0, nid), And(Write(NID, hdr0, low), FieldMask(0, 28));
    forall i: nat ensures Bit(d, i) <==> Bit(e, i) {
      KeepBits(i);
      OrBits(And(hdr0, TD_HEADER_KEEP), Shl(32, low, 16), i);
      AndBits(hdr0, TD_HEADER_KEEP, i);
      ShlBits(32, low, 16, i);
      AndBits(Write(NID, hdr0, low), FieldMask(0, 28), i);
      WriteBits(NID, hdr0, low, i);
      MaskBits(0, 28, i);
      if i >= 16 {
        ByteBits(nid, i - 16);
      }
    }
    SameBits(d, e);
    ByteBound(nid);
    Bounds(NID);
  }

  lemma ByteBound(nid: nat)
    ensures And(nid, 0xFF) == Low(nid, 8) < 256 == Pow2(8)
  {
    hide And, Low;
    assert Pow2(4) == 16;
    assert Pow2(8) == 256;
    AndOnes(nid, 8);
  }

  lemma ByteBits(nid: nat, i: nat)
    ensures Bit(And(nid, 0xFF), i) <==> i < 8 && Bit(nid, i)
  {
    hide Bit;
    ByteBound(nid);
    LowBits(nid, 8, i);
  }

  lemma KeepBits(i: nat)
    ensures Bit(TD_HEADER_KEEP, i) <==> i < 16 || 24 <= i < 28
  {
    hide Bit, And, Or;
    var high, low := FieldMask(24, 4), FieldMask(0, 16);
    assert Pow2(4) == 16 && Pow2(16) == 0x1_0000 && Pow2(24) == 0x100_0000;
    OrLow(0xF, 0xFFFF, 24);
    OrBits(high, low, i);
    MaskBits(24, 4, i);
    MaskBits(0, 16, i);
  }
}
