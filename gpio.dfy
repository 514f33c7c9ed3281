/**
 * The driver state and its pin operations: the numbering flag and the mapped
 * register block, with set-input, set-output, read, write (drive high) and
 * clear (drive low) acting on the block word by word.
 */
module Gpio {
  import opened Registers
  import opened Pins

  function Pow2(n: nat): (p: int)
    ensures p >= 1
  {
    if n == 0 then 1 else 2 * Pow2(n - 1)
  }

  /** The unsigned value of the low `n` bits of `w`. */
  function LowValue(w: bv32, n: nat): nat
  {
    if n == 0 then 0 else (if w & 1 == 1 then 1 else 0) + 2 * LowValue(w >> 1, n - 1)
  }

  /** Powers of two grow strictly. */
  lemma {:induction false} Pow2Below(k: nat, n: nat)
    requires k < n
    ensures Pow2(k) < Pow2(n)
  {
    if k < n - 1 {
      Pow2Below(k, n - 1);
    }
  }

  /**
   * The `int` that an `unsigned int` value becomes when the driver returns it:
   * the two's-complement reading of the 32 bits, which always fits a 32-bit
   * `int`. Before C++20 the language left this conversion to the compiler for
   * values above `INT_MAX`; two's complement is what the compilers for the
   * board do.
   */
  function ToCInt(w: bv32): (i: int)
    ensures -Pow2(31) <= i < Pow2(31)
  {
    LowValueBound(w, 31);
    LowValue(w, 31) - (if w >> 31 == 1 then Pow2(31) else 0)
  }

  lemma {:induction false} LowValueBound(w: bv32, n: nat)
    ensures LowValue(w, n) < Pow2(n)
  {
    if n > 0 {
      LowValueBound(w >> 1, n - 1);
    }
  }

  lemma {:induction false} LowValueOfZero(n: nat)
    ensures LowValue(0, n) == 0
  {
    if n > 0 {
      LowValueOfZero(n - 1);
    }
  }

  /** The low `n` bits of the mask for bit `k` are worth that bit's weight, or 0 when `k` lies beyond them. */
  lemma {:induction false} LowValueOfMask(k: nat, n: nat)
    requires k < 32
    ensures ToBv(k) < 32 && LowValue(PinMask(ToBv(k)), n) == if k < n then Pow2(k) else 0
  {
    ToBvSmall(k);
    if n > 0 {
      if k == 0 {
        assert PinMask(ToBv(k)) & 1 == 1 && PinMask(ToBv(k)) >> 1 == 0;
        LowValueOfZero(n - 1);
      } else {
        ToBvSmall(k - 1);
        var c := ToBv(k - 1);
        assert PinMask(c + 1) & 1 == 0 && PinMask(c + 1) >> 1 == PinMask(c);
        LowValueOfMask(k - 1, n - 1);
      }
    }
  }

  /** The result is a 32-bit `int`, negative exactly when bit 31 is set. */
  lemma ToCIntRange(w: bv32)
    ensures -Pow2(31) <= ToCInt(w) < Pow2(31)
    ensures ToCInt(w) < 0 <==> Bit(w, 31)
  {
    LowValueBound(w, 31);
  }

  lemma ToCIntOfZero()
    ensures ToCInt(0) == 0
  {
    LowValueOfZero(31);
  }

  /** Bit `k` alone reads as its weight 2 to the power `k`, or as the most negative `int` for bit 31. */
  lemma ToCIntOfMask(k: nat)
    requires k < 32
    ensures ToBv(k) < 32 && ToCInt(PinMask(ToBv(k))) == if k < 31 then Pow2(k) else -Pow2(31)
  {
    LowValueOfMask(k, 31);
    ToBvSmall(k);
    MaskBit(ToBv(k), 31);
  }

  /** The status of a direction or drive operation: 1 when the pin does not resolve, else 0. */
  function Status(r: Resolution): (status: int)
  {
    if r.Unusable? then 1 else 0
  }

  /**
   * The weight of `gpin`'s level bit when its 32-bit level word is read as a
   * signed `int`: 2 to the power `gpin % 32`, negative for bit 31.
   */
  function PinWeight(gpin: nat): (w: int)
    ensures w != 0
    ensures w < 0 <==> gpin % 32 == 31
    ensures -Pow2(31) <= w < Pow2(31)
  {
    var k := gpin % 32;
    if k == 31 then -Pow2(31)
    else
      Pow2Below(k, 31);
      Pow2(k)
  }

  /**
   * The value read-pin returns on block `m` for resolution `r`: 1 when the pin
   * does not resolve, else 0 for a low pin and the level bit's weight for a high one.
   * Every reading fits a 32-bit `int`.
   */
  function LevelReading(m: seq<bv32>, r: Resolution): (v: int)
    requires IsBlock(m)
    ensures -Pow2(31) <= v < Pow2(31)
  {
    Pow2Below(0, 31);

    match r
    case Unusable => 1
    case Gpio(g) => if Bit(m[BankWord(g, GPLEV0, GPLEV1)], BitOf(g)) then PinWeight(g) else 0
  }

  /**
   * Masking word `w` with bit `b` alone and reading it as an `int` gives 0 or
   * `weight`, the reading of that bit by itself.
   */
  lemma MaskedReading(w: bv32, b: bv32, weight: int)
    requires b < 32 && ToCInt(PinMask(b)) == weight
    ensures ToCInt(w & PinMask(b)) == if Bit(w, b) then weight else 0
  {
    ToCIntOfZero();
    if Bit(w, b) {
      MaskKeepsSetBit(w, b);
    } else {
      MaskDropsClearBit(w, b);
    }
  }

  /** The mask of pin `gpin` alone reads as the weight of its level bit. */
  lemma PinMaskReading(gpin: nat)
    ensures ToCInt(PinMask(BitOf(gpin))) == PinWeight(gpin)
  {
    ToCIntOfMask(gpin % 32);
  }

  /** The register-level computation of read-pin on word `w` agrees with `LevelReading`. */
  lemma MaskedPinReading(w: bv32, gpin: nat)
    ensures ToCInt(w & PinMask(BitOf(gpin))) == if Bit(w, BitOf(gpin)) then PinWeight(gpin) else 0
  {
    PinMaskReading(gpin);
    MaskedReading(w, BitOf(gpin), PinWeight(gpin));
  }

  lemma MaskKeepsSetBit(w: bv32, b: bv32)
    requires b < 32 && Bit(w, b)
    ensures w & PinMask(b) == PinMask(b)
  {
  }

  lemma MaskDropsClearBit(w: bv32, b: bv32)
    requires b < 32 && !Bit(w, b)
    ensures w & PinMask(b) == 0
  {
  }


  /** Read-pin's register-level computation on block `m` is `LevelReading`. */
  lemma LevelWordReading(m: seq<bv32>, g: nat, w: bv32)
    requires IsBlock(m) && w == m[BankWord(g, GPLEV0, GPLEV1)]
    ensures ToCInt(w & PinMask(BitOf(g))) == LevelReading(m, Gpio(g))
  {
    MaskedPinReading(w, g);
    ResolvedLevelReading(m, g, w);
  }

  lemma ResolvedLevelReading(m: seq<bv32>, g: nat, w: bv32)
    requires IsBlock(m) && w == m[BankWord(g, GPLEV0, GPLEV1)]
    ensures LevelReading(m, Gpio(g)) == if Bit(w, BitOf(g)) then PinWeight(g) else 0
  {
  }

  /** A resolved read is nonzero exactly when the pin's level bit is set. */
  lemma LevelReadingSensesBit(m: seq<bv32>, g: nat)
    requires IsBlock(m)
    ensures LevelReading(m, Gpio(g)) != 0 <==> Bit(m[BankWord(g, GPLEV0, GPLEV1)], BitOf(g))
  {
  }

  /** A resolved read is negative exactly when the pin's level bit is bit 31 and is set. */
  lemma LevelReadingSign(m: seq<bv32>, g: nat)
    requires IsBlock(m)
    ensures LevelReading(m, Gpio(g)) < 0 <==> g % 32 == 31 && Bit(m[BankWord(g, GPLEV0, GPLEV1)], BitOf(g))
  {
  }

  /** The reading is not normalised to 0/1: a high GPIO 17 reads as 0x20000. */
  lemma HighPinSeventeenReading(m: seq<bv32>)
    requires IsBlock(m) && Bit(m[GPLEV0], BitOf(17))
    ensures LevelReading(m, Gpio(17)) == 0x2_0000
  {
    Pow2Seventeen();
  }

  lemma Pow2Seventeen()
    ensures Pow2(17) == 0x2_0000
  {
    assert Pow2(4) == 0x10;
    assert Pow2(8) == 0x100;
    assert Pow2(12) == 0x1000;
    assert Pow2(16) == 0x1_0000;
  }

  /**
   * The failure value of read-pin equals the reading of a high GPIO 0. The two
   * never meet within one numbering: see `ReadFailureUnambiguous`.
   */
  lemma ReadFailureLooksLikeHighPinZero(m: seq<bv32>)
    requires IsBlock(m) && Bit(m[GPLEV0], BitOf(0))
    ensures LevelReading(m, Unusable) == LevelReading(m, Gpio(0)) == 1
  {
  }

  /**
   * Within one numbering the value 1 has one meaning: in physical numbering it
   * is the failure value, since no header position reaches GPIO 0 or 1; in
   * logical numbering nothing fails and 1 is a high pin on bit 0 of its bank.
   */
  lemma ReadFailureUnambiguous(m: seq<bv32>, physical: bool, pin: int)
    requires IsBlock(m) && Defined(physical, pin)
    ensures LevelReading(m, Resolve(physical, pin)) == 1 <==>
      if physical then Resolve(physical, pin).Unusable?
      else pin % 32 == 0 && Bit(m[BankWord(pin, GPLEV0, GPLEV1)], BitOf(pin))
  {
    var r := Resolve(physical, pin);
    if r.Gpio? && r.index % 32 != 0 {
      PinWeightNotOne(r.index);
    }
  }

  /** Only bit 0 of a bank has weight 1. */
  lemma PinWeightNotOne(gpin: nat)
    requires gpin % 32 != 0
    ensures PinWeight(gpin) != 1
  {
    var k := gpin % 32;
    if k < 31 {
      Pow2Below(0, k);
    }
  }

  class Controller {
    /** False: pins are GPIO indices; true: pins are header positions. */
    var physicalNumbering: bool
    /** The mapped register block, one element per 32-bit word. */
    const mem: array<bv32>

    ghost predicate Valid()
    {
      mem.Length == BLOCK_WORDS
    }

    /** A controller over an already-mapped block, in GPIO numbering. */
    constructor (block: array<bv32>)
      requires block.Length == BLOCK_WORDS
      ensures Valid() && mem == block && !physicalNumbering
    {
      mem := block;
      physicalNumbering := false;
    }

    /** Whether header positions, rather than GPIO indices, name the pins. */
    function PhysicalNumberingOn(): (on: bool)
      reads this
      ensures on == physicalNumbering
    {
      physicalNumbering
    }

    method SetPhysicalNumbering(value: bool)
      modifies this
      ensures PhysicalNumberingOn() == value
      ensures mem[..] == old(mem[..])
    {
      physicalNumbering := value;
    }

    /** Clear the pin's function-select field to 000 (input). */
    method SetInput(pin: int) returns (status: int)
      requires Valid() && Defined(physicalNumbering, pin)
      modifies mem
      ensures status == Status(Resolve(physicalNumbering, pin))
      ensures !physicalNumbering ==> status == 0
      ensures Resolve(physicalNumbering, pin).Unusable? ==> mem[..] == old(mem[..])
      ensures Resolve(physicalNumbering, pin).Gpio? ==>
        mem[..] == SetInputState(old(mem[..]), Resolve(physicalNumbering, pin).index)
    {
      var r := Resolve(physicalNumbering, pin);
      if r.Unusable? {
        return 1;
      }
      var gpin := r.index;
      var addr := FindAddress(gpin);
      mem[addr] := InputWord(mem[addr], Slot(gpin));
      return 0;
    }

    /** OR the output code 001 into the pin's function-select field. */
    method SetOutput(pin: int) returns (status: int)
      requires Valid() && Defined(physicalNumbering, pin)
      modifies mem
      ensures status == Status(Resolve(physicalNumbering, pin))
      ensures !physicalNumbering ==> status == 0
      ensures Resolve(physicalNumbering, pin).Unusable? ==> mem[..] == old(mem[..])
      ensures Resolve(physicalNumbering, pin).Gpio? ==>
        mem[..] == SetOutputState(old(mem[..]), Resolve(physicalNumbering, pin).index)
    {
      var r := Resolve(physicalNumbering, pin);
      if r.Unusable? {
        return 1;
      }
      var gpin := r.index;
      var addr := FindAddress(gpin);
      mem[addr] := OutputWord(mem[addr], Slot(gpin));
      return 0;
    }

    /** The pin's level bit, masked but not shifted down; 1 when the pin does not resolve. */
    method ReadPin(pin: int) returns (value: int)
      requires Valid() && Defined(physicalNumbering, pin)
      ensures value == LevelReading(mem[..], Resolve(physicalNumbering, pin))
    {
      var r := Resolve(physicalNumbering, pin);
      if r.Unusable? {
        return 1;
      }
      var gpin := r.index;
      var addr := BankWord(gpin, GPLEV0, GPLEV1);
      value := ToCInt(mem[addr] & PinMask(BitOf(gpin)));
      LevelWordReading(mem[..], gpin, mem[addr]);
    }

    /** Store the pin's single bit into its set word (drive high). */
    method WritePin(pin: int) returns (status: int)
      requires Valid() && Defined(physicalNumbering, pin)
      modifies mem
      ensures status == Status(Resolve(physicalNumbering, pin))
      ensures !physicalNumbering ==> status == 0
      ensures Resolve(physicalNumbering, pin).Unusable? ==> mem[..] == old(mem[..])
      ensures Resolve(physicalNumbering, pin).Gpio? ==>
        var g := Resolve(physicalNumbering, pin).index;
        mem[..] == old(mem[..])[BankWord(g, GPSET0, GPSET1) := PinMask(BitOf(g))]
    {
      var r := Resolve(physicalNumbering, pin);
      if r.Unusable? {
        return 1;
      }
      var gpin := r.index;
      mem[BankWord(gpin, GPSET0, GPSET1)] := PinMask(BitOf(gpin));
      return 0;
    }

    /** Store the pin's single bit into its clear word (drive low). */
    method ClearPin(pin: int) returns (status: int)
      requires Valid() && Defined(physicalNumbering, pin)
      modifies mem
      ensures status == Status(Resolve(physicalNumbering, pin))
      ensures !physicalNumbering ==> status == 0
      ensures Resolve(physicalNumbering, pin).Unusable? ==> mem[..] == old(mem[..])
      ensures Resolve(physicalNumbering, pin).Gpio? ==>
        var g := Resolve(physicalNumbering, pin).index;
        mem[..] == old(mem[..])[BankWord(g, GPCLR0, GPCLR1) := PinMask(BitOf(g))]
    {
      var r := Resolve(physicalNumbering, pin);
      if r.Unusable? {
        return 1;
      }
      var gpin := r.index;
      mem[BankWord(gpin, GPCLR0, GPCLR1)] := PinMask(BitOf(gpin));
      return 0;
    }
  }
}
