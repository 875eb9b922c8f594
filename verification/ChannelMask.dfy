// Reading one channel out of a pixel through its bit mask (maskedChannel in
// clipboard_image.go). A uint32 is a number below 2^32; shifts and masks work
// on its binary digits, one at a time.
module ChannelMask {
  import opened Bytes

  const UINT32_LIMIT := 0x1_0000_0000

  function ShiftRight(m: nat, n: nat): (r: nat)
    ensures r <= m
  {
    if n == 0 then m else ShiftRight(m / 2, n - 1)
  }

  function ShiftLeft(m: nat, n: nat): (r: nat)
    ensures r >= m && (m > 0 ==> r > 0)
  {
    if n == 0 then m else 2 * ShiftLeft(m, n - 1)
  }

  /** Bitwise and. */
  function And(a: nat, b: nat): (r: nat)
    ensures r <= a && r <= b
    decreases b
  {
    if b == 0 then 0 else (if a % 2 == 1 then b % 2 else 0) + 2 * And(a / 2, b / 2)
  }

  /** The lowest bits of a number. */
  function Low(v: nat, bits: nat): (r: nat)
    ensures r <= AllOnes(bits)
  {
    if bits == 0 then 0 else v % 2 + 2 * Low(v / 2, bits - 1)
  }

  function AllOnes(bits: nat): (r: nat)
    ensures bits > 0 ==> r > 0
  {
    if bits == 0 then 0 else 2 * AllOnes(bits - 1) + 1
  }

  function TrailingZeros(m: nat): nat
    requires m > 0
  {
    if m % 2 == 1 then 0 else 1 + TrailingZeros(m / 2)
  }

  /** The length of the run of ones at the low end. */
  function Ones(m: nat): nat {
    if m % 2 == 0 then 0 else 1 + Ones(m / 2)
  }

  /** What maskedChannel computes, for any mask. */
  function Channel(v: nat, mask: nat): byte {
    if mask == 0 then 0
    else
      var shift := TrailingZeros(mask);
      LowBitIsOne(mask);
      ScaledDown(ShiftRight(And(v, mask), shift), Ones(ShiftRight(mask, shift)))
  }

  /** The value under the mask as eight bits, as uint32 arithmetic has it. */
  function ScaledDown(value: nat, bits: nat): byte
    requires bits > 0
  {
    if bits >= 8 then (ShiftRight(value, bits - 8) % 256) as byte
    else (value * 255 % UINT32_LIMIT / AllOnes(bits) % 256) as byte
  }

  /** A run of ones with zeros after it. */
  function Contiguous(shift: nat, bits: nat): nat {
    ShiftLeft(AllOnes(bits), shift)
  }

  /** The field of a number that a contiguous mask selects. */
  function FieldAt(v: nat, shift: nat, bits: nat): nat {
    Low(ShiftRight(v, shift), bits)
  }

  /** What the channel should be: the top eight bits of a wide field, and a
      narrow one stretched over the whole scale. */
  function Scaled(field: nat, bits: nat): nat
    requires bits > 0
  {
    if bits >= 8 then ShiftRight(field, bits - 8) else field * 255 / AllOnes(bits)
  }

  // ---- Shifts ---------------------------------------------------------------------------

  lemma {:induction false} ShiftOneMore(m: nat, n: nat)
    ensures ShiftRight(m, n + 1) == ShiftRight(m, n) / 2
  {
    if n > 0 {
      ShiftOneMore(m / 2, n - 1);
    }
  }

  lemma {:induction false} ShiftThereAndBack(m: nat, n: nat)
    ensures ShiftRight(ShiftLeft(m, n), n) == m
  {
    if n > 0 {
      ShiftThereAndBack(m, n - 1);
    }
  }

  lemma {:induction false} AndShifted(a: nat, m: nat, n: nat)
    ensures And(a, ShiftLeft(m, n)) == ShiftLeft(And(ShiftRight(a, n), m), n)
    decreases n
  {
    if n > 0 {
      AndShifted(a / 2, m, n - 1);
      var b := ShiftLeft(m, n - 1);
      assert ShiftLeft(m, n) == 2 * b;
      assert And(a, 2 * b) == 2 * And(a / 2, b);
    }
  }

  lemma {:induction false} LowBitIsOne(mask: nat)
    requires mask > 0
    ensures ShiftRight(mask, TrailingZeros(mask)) % 2 == 1
    ensures Ones(ShiftRight(mask, TrailingZeros(mask))) > 0
    decreases mask
  {
    if mask % 2 == 0 {
      LowBitIsOne(mask / 2);
    }
  }

  /** Testing one bit. */
  lemma AndOneBit(a: nat, n: nat)
    ensures And(a, ShiftLeft(1, n)) == 0 <==> ShiftRight(a, n) % 2 == 0
  {
    AndShifted(a, 1, n);
    var s := ShiftRight(a, n);
    assert And(s, 1) == s % 2 + 2 * And(s / 2, 0);
    ShiftThereAndBack(0, n);
    ShiftThereAndBack(1, n);
    assert s % 2 == 0 ==> ShiftLeft(0, n) == 0 by {
      ShiftedZero(n);
    }
  }

  lemma {:induction false} ShiftedZero(n: nat)
    ensures ShiftLeft(0, n) == 0
  {
    if n > 0 {
      ShiftedZero(n - 1);
    }
  }

  // ---- Contiguous masks -----------------------------------------------------------------

  lemma {:induction false} OnesOfAllOnes(bits: nat)
    ensures Ones(AllOnes(bits)) == bits
  {
    if bits > 0 {
      OnesOfAllOnes(bits - 1);
    }
  }

  lemma {:induction false} TrailingZerosOf(shift: nat, bits: nat)
    requires bits > 0
    ensures Contiguous(shift, bits) > 0 && TrailingZeros(Contiguous(shift, bits)) == shift
  {
    if shift > 0 {
      TrailingZerosOf(shift - 1, bits);
      assert Contiguous(shift, bits) == 2 * Contiguous(shift - 1, bits);
    }
  }

  lemma {:induction false} AndAllOnes(v: nat, bits: nat)
    ensures And(v, AllOnes(bits)) == Low(v, bits)
    decreases bits
  {
    if bits > 0 {
      AndAllOnes(v / 2, bits - 1);
    }
  }

  /** A contiguous mask gives the scaled field; nothing wraps or is cut off. */
  lemma ContiguousChannel(v: nat, shift: nat, bits: nat)
    requires bits > 0
    ensures Channel(v, Contiguous(shift, bits)) as nat == Scaled(FieldAt(v, shift, bits), bits)
  {
    hide ScaledDown, Scaled, AllOnes, ShiftLeft;
    var field := FieldAt(v, shift, bits);
    TrailingZerosOf(shift, bits);
    ShiftThereAndBack(AllOnes(bits), shift);
    OnesOfAllOnes(bits);
    AndShifted(v, AllOnes(bits), shift);
    AndAllOnes(ShiftRight(v, shift), bits);
    ShiftThereAndBack(field, shift);
    NothingWraps(field, bits);
  }

  lemma NothingWraps(field: nat, bits: nat)
    requires bits > 0 && field <= AllOnes(bits)
    ensures ScaledDown(field, bits) as nat == Scaled(field, bits)
  {
    hide AllOnes;
    ScaledIsByte(field, bits);
    if bits < 8 {
      NarrowIsSmall(bits);
      SmallProduct(field * 255);
    }
  }

  lemma SmallProduct(product: nat)
    requires product < UINT32_LIMIT
    ensures product % UINT32_LIMIT == product
  {
  }

  lemma NarrowIsSmall(bits: nat)
    requires bits < 8
    ensures AllOnes(bits) < 128
  {
    NarrowOnes();
  }

  lemma NarrowOnes()
    ensures AllOnes(1) == 1 && AllOnes(2) == 3 && AllOnes(3) == 7 && AllOnes(4) == 15
    ensures AllOnes(5) == 31 && AllOnes(6) == 63 && AllOnes(7) == 127 && AllOnes(8) == 255
  {
    assert AllOnes(4) == 15;
  }

  /** The scale runs from 0 to 255 over the field. */
  lemma ScaledIsByte(field: nat, bits: nat)
    requires bits > 0 && field <= AllOnes(bits)
    ensures Scaled(field, bits) < 256
    ensures Scaled(0, bits) == 0 && Scaled(AllOnes(bits), bits) == 255
  {
    hide AllOnes, ShiftRight;
    if bits >= 8 {
      TopOnes(bits - 8);
      ShiftGrows(field, AllOnes(bits), bits - 8);
    } else {
      QuotientGrows(field * 255, AllOnes(bits) * 255, AllOnes(bits));
      FullQuotient(AllOnes(bits));
    }
  }

  lemma FullQuotient(d: nat)
    requires d > 0
    ensures 0 * 255 / d == 0 && d * 255 / d == 255
  {
    var q := d * 255 / d - 255;
    assert d * q == d * (d * 255 / d) - d * 255;
    assert q > 0 ==> d * q >= d;
    assert q < 0 ==> d * q + d <= 0;
  }

  lemma {:induction false} TopOnes(n: nat)
    ensures ShiftRight(AllOnes(8 + n), n) == 255 && ShiftRight(0, n) == 0
  {
    NarrowOnes();
    if n > 0 {
      TopOnes(n - 1);
    }
  }

  lemma {:induction false} ShiftGrows(a: nat, b: nat, n: nat)
    requires a <= b
    ensures ShiftRight(a, n) <= ShiftRight(b, n)
    decreases n
  {
    if n > 0 {
      ShiftGrows(a / 2, b / 2, n - 1);
    }
  }

  /** A larger field is never darker. */
  lemma ScaledGrows(f: nat, g: nat, bits: nat)
    requires bits > 0 && f <= g <= AllOnes(bits)
    ensures Scaled(f, bits) <= Scaled(g, bits)
  {
    NarrowOnes();
    if bits >= 8 {
      ShiftGrows(f, g, bits - 8);
    } else {
      QuotientGrows(f * 255, g * 255, AllOnes(bits));
    }
  }

  lemma QuotientGrows(a: nat, b: nat, d: nat)
    requires a <= b && d > 0
    ensures a / d <= b / d
  {
    var q := a / d - b / d;
    assert d * q == d * (a / d) - d * (b / d);
    assert q > 0 ==> d * q >= d;
  }

  // ---- Whole bytes ------------------------------------------------------------------------

  lemma LowByte(v: nat)
    ensures Low(v, 8) == v % 256
  {
    hide Low, ShiftLeft, ShiftRight;
    LowJoin(v, 4, 4);
    LowFour(v);
    LowFour(v / 16);
    ShiftedByFour(v);
    ShiftedByFour(v / 16 % 16);
    TwoNibbles(v);
  }

  lemma TwoNibbles(v: nat)
    ensures v % 16 + 16 * (v / 16 % 16) == v % 256
  {
    var low, high, rest := v % 16, v / 16 % 16, v / 16 / 16;
    assert v / 16 == 16 * rest + high;
    Remainder256(v, rest, 16 * high + low);
  }

  lemma Remainder256(v: nat, k: nat, r: nat)
    requires v == 256 * k + r && r < 256
    ensures v % 256 == r
  {
  }

  lemma LowFour(v: nat)
    ensures Low(v, 4) == v % 16
  {
    hide Low, ShiftLeft, ShiftRight;
    LowJoin(v, 2, 2);
    LowTwo(v);
    LowTwo(v / 4);
    ShiftedByTwo(v);
    ShiftedByTwo(v / 4 % 4);
    TwoHalves(v);
  }

  lemma ShiftedByTwo(v: nat)
    ensures ShiftRight(v, 2) == v / 4 && ShiftLeft(v, 2) == 4 * v
  {
    ShiftOneMore(v, 1);
    assert ShiftRight(v, 1) == v / 2;
    assert ShiftLeft(v, 1) == 2 * v;
  }

  lemma TwoHalves(v: nat)
    ensures v % 4 + 4 * (v / 4 % 4) == v % 16
  {
    var low, high, rest := v % 4, v / 4 % 4, v / 4 / 4;
    assert v / 4 == 4 * rest + high;
    Remainder16(v, rest, 4 * high + low);
  }

  lemma Remainder16(v: nat, k: nat, r: nat)
    requires v == 16 * k + r && r < 16
    ensures v % 16 == r
  {
  }

  lemma LowTwo(v: nat)
    ensures Low(v, 2) == v % 4
  {
    assert Low(v / 2, 1) == v / 2 % 2;
  }

  lemma {:induction false} LowJoin(v: nat, a: nat, b: nat)
    ensures Low(v, a + b) == Low(v, a) + ShiftLeft(Low(ShiftRight(v, a), b), a)
    decreases a
  {
    if a > 0 {
      LowJoin(v / 2, a - 1, b);
    }
  }

  lemma {:induction false} ShiftJoin(v: nat, a: nat, b: nat)
    ensures ShiftRight(v, a + b) == ShiftRight(ShiftRight(v, a), b)
    decreases a
  {
    if a > 0 {
      ShiftJoin(v / 2, a - 1, b);
    }
  }

  lemma ShiftedByBytes(v: nat)
    ensures ShiftRight(v, 0) == v && ShiftRight(v, 8) == v / 0x100 && ShiftRight(v, 16) == v / 0x1_0000
  {
    ShiftedByByte(v);
    ShiftedByByte(v / 0x100);
    ShiftJoin(v, 8, 8);
  }

  lemma ShiftedByByte(v: nat)
    ensures ShiftRight(v, 8) == v / 0x100
  {
    ShiftJoin(v, 4, 4);
    ShiftedByFour(v);
    ShiftedByFour(v / 16);
  }

  lemma ShiftedByFour(v: nat)
    ensures ShiftRight(v, 4) == v / 16 && ShiftLeft(v, 4) == 16 * v
  {
    ShiftOneMore(v, 1);
    ShiftOneMore(v, 2);
    ShiftOneMore(v, 3);
    assert ShiftLeft(v, 1) == 2 * v;
    assert ShiftLeft(v, 2) == 4 * v;
    assert ShiftLeft(v, 3) == 8 * v;
  }

  // ---- The two counting loops ------------------------------------------------------------

  method MaskedChannel(v: nat, mask: nat) returns (c: byte)
    requires v < UINT32_LIMIT && mask < UINT32_LIMIT
    ensures c == Channel(v, mask)
    ensures forall shift: nat, bits: nat :: 0 < bits && mask == Contiguous(shift, bits) ==>
              c as nat == Scaled(FieldAt(v, shift, bits), bits)
  {
    hide ScaledDown, Scaled, FieldAt, Contiguous;
    forall shift: nat, bits: nat | 0 < bits && mask == Contiguous(shift, bits)
      ensures Channel(v, mask) as nat == Scaled(FieldAt(v, shift, bits), bits)
    {
      ContiguousChannel(v, shift, bits);
    }
    if mask == 0 {
      return 0;
    }
    var shift := CountShift(mask);
    LowBitIsOne(mask);
    var bits := CountBits(ShiftRight(mask, shift));
    c := ScaledDown(ShiftRight(And(v, mask), shift), bits);
  }

  /** Ends for every mask that is not zero. */
  method CountShift(mask: nat) returns (shift: nat)
    requires 0 < mask < UINT32_LIMIT
    ensures shift == TrailingZeros(mask)
  {
    shift := 0;
    AndOneBit(mask, 0);
    while And(mask, ShiftLeft(1, shift)) == 0
      invariant ShiftRight(mask, shift) > 0
      invariant shift + TrailingZeros(ShiftRight(mask, shift)) == TrailingZeros(mask)
      invariant And(mask, ShiftLeft(1, shift)) == 0 <==> ShiftRight(mask, shift) % 2 == 0
      decreases ShiftRight(mask, shift)
    {
      ShiftOneMore(mask, shift);
      shift := shift + 1;
      AndOneBit(mask, shift);
    }
  }

  method CountBits(ones: nat) returns (bits: nat)
    ensures bits == Ones(ones)
  {
    bits := 0;
    var m := ones;
    while m % 2 == 1
      invariant bits + Ones(m) == Ones(ones)
      decreases m
    {
      bits := bits + 1;
      m := m / 2;
    }
  }
}
