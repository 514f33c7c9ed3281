/**
 * The GPIO register block of the BCM2835 as the driver sees it: word indices
 * of the function-select, set, clear and level banks (BCM2835 ARM Peripherals,
 * pages 90-96), the choice of word for a canonical pin, and the bit patterns
 * that the driver writes into a word.
 *
 * Bit positions and field slots are `bv32` values so that every statement
 * about a word stays inside bit-vector arithmetic.
 */
module Registers {

  /** Size of the mapped block in bytes, and the same block counted in 32-bit words. */
  const GPIO_BLOCK: nat := 4 * 1024
  const BLOCK_WORDS: nat := GPIO_BLOCK / 4

  /** Function-select words: each holds ten 3-bit fields. */
  const GPFSEL0: nat := 0x00
  const GPFSEL1: nat := 0x01
  const GPFSEL2: nat := 0x02
  const GPFSEL3: nat := 0x03
  const GPFSEL4: nat := 0x04
  const GPFSEL5: nat := 0x05
  /** What the address lookup answers for a pin above 53. */
  const INVALID_FSEL: nat := 0x20

  /** Set, clear and level banks: word 0 covers pins 0..31, word 1 the rest. */
  const GPSET0: nat := 0x07
  const GPSET1: nat := 0x08
  const GPCLR0: nat := 0x0A
  const GPCLR1: nat := 0x0B
  const GPLEV0: nat := 0x0D
  const GPLEV1: nat := 0x0E

  /** Highest canonical pin the controller has. */
  const MAX_GPIO: nat := 53

  /** The function-select word covering canonical pin `gpin`. */
  function FindAddress(gpin: int): (addr: nat)
    ensures addr < BLOCK_WORDS
    ensures addr <= GPFSEL5 || addr == INVALID_FSEL
  {
    if gpin <= 9 then GPFSEL0
    else if gpin <= 19 then GPFSEL1
    else if gpin <= 29 then GPFSEL2
    else if gpin <= 39 then GPFSEL3
    else if gpin <= 49 then GPFSEL4
    else if gpin <= 53 then GPFSEL5
    else INVALID_FSEL
  }

  /**
   * Pins 0..53 are covered ten to a word, in order: pin `g` is in word
   * `g / 10`; every pin above 53 gets the sentinel word, and a negative index
   * falls into word 0.
   */
  lemma FindAddressPartition(gpin: int)
    ensures 0 <= gpin <= MAX_GPIO ==> FindAddress(gpin) == gpin / 10
    ensures gpin > MAX_GPIO ==> FindAddress(gpin) == INVALID_FSEL
    ensures gpin < 0 ==> FindAddress(gpin) == GPFSEL0
  {
  }

  /** The word of a two-word bank (set, clear or level) that covers `gpin`. */
  function BankWord(gpin: int, word0: nat, word1: nat): (addr: nat)
    ensures addr == word0 || addr == word1
  {
    if gpin <= 31 then word0 else word1
  }

  /** Pins 0..63 are covered 32 to a bank word, in order: pin `g` is in word `g / 32`. */
  lemma BankWordPartition(gpin: int, word0: nat, word1: nat)
    requires 0 <= gpin < 64
    ensures BankWord(gpin, word0, word1) == [word0, word1][gpin / 32]
  {
  }

  /** The small number `n` as a bit-vector, counted up from 0. */
  function ToBv(n: nat): bv32
    requires n <= 32
  {
    if n == 0 then 0 else ToBv(n - 1) + 1
  }

  lemma {:induction false} ToBvValue(n: nat)
    requires n <= 32
    ensures ToBv(n) as int == n
  {
    if n > 0 {
      ToBvValue(n - 1);
    }
  }

  /** The bounds of small numbers, restated on their bit-vectors. */
  lemma ToBvSmall(n: nat)
    requires n < 32
    ensures ToBv(n) < 32
    ensures n < 10 ==> ToBv(n) < 10
    ensures n < 31 <==> ToBv(n) < 31
  {
    ToBvValue(n);
  }

  /** Distinct small numbers have distinct bit-vectors. */
  lemma ToBvInjective(a: nat, b: nat)
    requires a <= 32 && b <= 32 && a != b
    ensures ToBv(a) != ToBv(b)
  {
    ToBvValue(a);
    ToBvValue(b);
  }

  /** Slot of `gpin`'s 3-bit field inside its function-select word: `gpin % 10`. */
  function Slot(gpin: int): (s: bv32)
    requires gpin >= 0
    ensures s < 10
  {
    ToBvSmall(gpin % 10);
    ToBv(gpin % 10)
  }

  lemma SlotValue(gpin: int)
    requires gpin >= 0
    ensures Slot(gpin) as int == gpin % 10
  {
    ToBvValue(gpin % 10);
  }

  /** Position of `gpin`'s bit inside its set, clear or level word: `gpin % 32`. */
  function BitOf(gpin: int): (b: bv32)
    requires gpin >= 0
    ensures b < 32
  {
    ToBvSmall(gpin % 32);
    ToBv(gpin % 32)
  }

  lemma BitOfValue(gpin: int)
    requires gpin >= 0
    ensures BitOf(gpin) as int == gpin % 32
  {
    ToBvValue(gpin % 32);
  }

  /** Bit `i` of word `w`. */
  predicate Bit(w: bv32, i: bv32)
    requires i < 32
  {
    (w >> i) & 1 == 1
  }

  /** The first bit of field `slot`: `3 * slot`, written as a sum to keep the solver off multiplication. */
  function FieldOffset(slot: bv32): (o: bv32)
    requires slot < 10
    ensures o < 30
  {
    slot + slot + slot
  }

  /** The field of canonical pin `gpin` starts at bit `3 * (gpin % 10)`. */
  lemma FieldOffsetValue(gpin: int)
    requires gpin >= 0
    ensures FieldOffset(Slot(gpin)) as int == 3 * (gpin % 10)
  {
    SlotValue(gpin);
  }

  /** The 3-bit function code stored in field `slot` of `w`. */
  function Field(w: bv32, slot: bv32): bv32
    requires slot < 10
  {
    (w >> FieldOffset(slot)) & 7
  }

  /** Whether bit `i` belongs to field `slot`. */
  predicate InField(i: bv32, slot: bv32)
    requires slot < 10
  {
    FieldOffset(slot) <= i < FieldOffset(slot) + 3
  }

  /**
   * The word after the set-input update: the field's three bits are masked
   * off. It sets no bit that `w` lacks.
   */
  function InputWord(w: bv32, slot: bv32): (r: bv32)
    requires slot < 10
    ensures r & !w == 0
  {
    w & !((7 as bv32) << FieldOffset(slot))
  }

  /**
   * The word after the set-output update: the field's low bit is OR-ed in.
   * It clears no bit of `w`.
   */
  function OutputWord(w: bv32, slot: bv32): (r: bv32)
    requires slot < 10
    ensures w & r == w
  {
    w | ((1 as bv32) << FieldOffset(slot))
  }

  /** The single-bit value stored into a set or clear word for bit `b`: exactly one bit is set. */
  function PinMask(b: bv32): (mask: bv32)
    requires b < 32
    ensures mask != 0 && mask & (mask - 1) == 0
  {
    (1 as bv32) << b
  }

  /** The mask for bit `b` has bit `b` set and no other. */
  lemma PinMaskBits(b: bv32)
    requires b < 32
    ensures forall i: bv32 :: i < 32 ==> (Bit(PinMask(b), i) <==> i == b)
  {
    forall i: bv32 | i < 32 ensures Bit(PinMask(b), i) <==> i == b {
      MaskBit(b, i);
    }
  }

  lemma MaskBit(b: bv32, i: bv32)
    requires b < 32 && i < 32
    ensures Bit((1 as bv32) << b, i) <==> i == b
  {
  }

  lemma InputBit(w: bv32, slot: bv32, i: bv32)
    requires slot < 10 && i < 32
    ensures Bit(InputWord(w, slot), i) == (Bit(w, i) && !InField(i, slot))
  {
    if InField(i, slot) {
      InputClearsFieldBit(w, slot, i);
    } else {
      InputKeepsOtherBit(w, slot, i);
    }
  }

  lemma InputClearsFieldBit(w: bv32, slot: bv32, i: bv32)
    requires slot < 10 && i < 32 && InField(i, slot)
    ensures !Bit(InputWord(w, slot), i)
  {
  }

  lemma InputKeepsOtherBit(w: bv32, slot: bv32, i: bv32)
    requires slot < 10 && i < 32 && !InField(i, slot)
    ensures Bit(InputWord(w, slot), i) == Bit(w, i)
  {
  }

  lemma OutputBit(w: bv32, slot: bv32, i: bv32)
    requires slot < 10 && i < 32
    ensures Bit(OutputWord(w, slot), i) == (Bit(w, i) || i == FieldOffset(slot))
  {
  }

  /** Set-input clears exactly the three bits of the field and keeps every other bit. */
  lemma InputWordBits(w: bv32, slot: bv32)
    requires slot < 10
    ensures forall i: bv32 :: i < 32 ==>
      (Bit(InputWord(w, slot), i) <==> Bit(w, i) && !InField(i, slot))
  {
    forall i: bv32 | i < 32
      ensures Bit(InputWord(w, slot), i) <==> Bit(w, i) && !InField(i, slot)
    {
      InputBit(w, slot, i);
    }
  }

  /** Set-output sets exactly the low bit of the field and keeps every other bit. */
  lemma OutputWordBits(w: bv32, slot: bv32)
    requires slot < 10
    ensures forall i: bv32 :: i < 32 ==>
      (Bit(OutputWord(w, slot), i) <==> Bit(w, i) || i == FieldOffset(slot))
  {
    forall i: bv32 | i < 32
      ensures Bit(OutputWord(w, slot), i) <==> Bit(w, i) || i == FieldOffset(slot)
    {
      OutputBit(w, slot, i);
    }
  }

  /** Field view of set-input: its own field becomes 000, the other nine are kept. */
  lemma InputWordFields(w: bv32, slot: bv32, other: bv32)
    requires slot < 10 && other < 10
    ensures Field(InputWord(w, slot), slot) == 0
    ensures other != slot ==> Field(InputWord(w, slot), other) == Field(w, other)
  {
  }

  /** Field view of set-output: its own field is OR-ed with 001, the other nine are kept. */
  lemma OutputWordFields(w: bv32, slot: bv32, other: bv32)
    requires slot < 10 && other < 10
    ensures Field(OutputWord(w, slot), slot) == Field(w, slot) | 1
    ensures Field(w, slot) == 0 ==> Field(OutputWord(w, slot), slot) == 1
    ensures other != slot ==> Field(OutputWord(w, slot), other) == Field(w, other)
  {
  }

  lemma InputWordIdempotent(w: bv32, slot: bv32)
    requires slot < 10
    ensures InputWord(InputWord(w, slot), slot) == InputWord(w, slot)
  {
  }

  /** Set-output followed by set-input leaves the word as set-input alone would. */
  lemma OutputThenInputWord(w: bv32, slot: bv32)
    requires slot < 10
    ensures InputWord(OutputWord(w, slot), slot) == InputWord(w, slot)
  {
  }

  /*
   * The register block as a whole: `m` is the 1024-word block and
   * `PinFunction(m, g)` the 3-bit function code of canonical pin `g`.
   */

  predicate IsBlock(m: seq<bv32>)
  {
    |m| == BLOCK_WORDS
  }

  function PinFunction(m: seq<bv32>, gpin: int): bv32
    requires IsBlock(m) && gpin >= 0
  {
    Field(m[FindAddress(gpin)], Slot(gpin))
  }

  /** The block after set-input on canonical pin `gpin`: only the pin's function-select word changes. */
  function SetInputState(m: seq<bv32>, gpin: int): (m': seq<bv32>)
    requires IsBlock(m) && gpin >= 0
    ensures IsBlock(m')
    ensures forall k :: 0 <= k < |m| && k != FindAddress(gpin) ==> m'[k] == m[k]
  {
    var addr := FindAddress(gpin);
    m[addr := InputWord(m[addr], Slot(gpin))]
  }

  /** The block after set-output on canonical pin `gpin`: only the pin's function-select word changes. */
  function SetOutputState(m: seq<bv32>, gpin: int): (m': seq<bv32>)
    requires IsBlock(m) && gpin >= 0
    ensures IsBlock(m')
    ensures forall k :: 0 <= k < |m| && k != FindAddress(gpin) ==> m'[k] == m[k]
  {
    var addr := FindAddress(gpin);
    m[addr := OutputWord(m[addr], Slot(gpin))]
  }

  /** No two of the 54 pins share a function-select field. */
  lemma PinFieldsDisjoint(g: int, h: int)
    requires 0 <= g <= MAX_GPIO && 0 <= h <= MAX_GPIO && g != h
    ensures FindAddress(g) != FindAddress(h) || Slot(g) != Slot(h)
  {
    FindAddressPartition(g);
    FindAddressPartition(h);
    if g % 10 != h % 10 {
      ToBvInjective(g % 10, h % 10);
    }
    assert g == 10 * (g / 10) + g % 10 && h == 10 * (h / 10) + h % 10;
  }

  /** No two of the 54 pins share a bit of a set, clear or level bank. */
  lemma PinBitsDisjoint(g: int, h: int, word0: nat, word1: nat)
    requires 0 <= g <= MAX_GPIO && 0 <= h <= MAX_GPIO && g != h && word0 != word1
    ensures BankWord(g, word0, word1) != BankWord(h, word0, word1) || BitOf(g) != BitOf(h)
  {
    BankWordPartition(g, word0, word1);
    BankWordPartition(h, word0, word1);
    if g % 32 != h % 32 {
      ToBvInjective(g % 32, h % 32);
    }
    assert g == 32 * (g / 32) + g % 32 && h == 32 * (h / 32) + h % 32;
  }

  /**
   * Set-input touches only the field of its pin: that field reads 000, every
   * other pin keeps its code, and every other word is unchanged.
   */
  lemma SetInputFrame(m: seq<bv32>, g: int)
    requires IsBlock(m) && g >= 0
    ensures IsBlock(SetInputState(m, g))
    ensures PinFunction(SetInputState(m, g), g) == 0
    ensures forall h :: 0 <= h <= MAX_GPIO && h != g ==>
      PinFunction(SetInputState(m, g), h) == PinFunction(m, h)
    ensures forall k :: 0 <= k < |m| && k != FindAddress(g) ==> SetInputState(m, g)[k] == m[k]
  {
    var m' := SetInputState(m, g);
    InputWordFields(m[FindAddress(g)], Slot(g), Slot(g));
    forall h | 0 <= h <= MAX_GPIO && h != g
      ensures PinFunction(m', h) == PinFunction(m, h)
    {
      if FindAddress(h) == FindAddress(g) {
        if g <= MAX_GPIO {
          PinFieldsDisjoint(g, h);
        }
        InputWordFields(m[FindAddress(g)], Slot(g), Slot(h));
      }
    }
  }

  /**
   * Set-output touches only the field of its pin: that field is OR-ed with 001
   * (so 000 becomes 001), every other pin keeps its code, and every other word
   * is unchanged.
   */
  lemma SetOutputFrame(m: seq<bv32>, g: int)
    requires IsBlock(m) && g >= 0
    ensures IsBlock(SetOutputState(m, g))
    ensures PinFunction(SetOutputState(m, g), g) == PinFunction(m, g) | 1
    ensures PinFunction(m, g) == 0 ==> PinFunction(SetOutputState(m, g), g) == 1
    ensures forall h :: 0 <= h <= MAX_GPIO && h != g ==>
      PinFunction(SetOutputState(m, g), h) == PinFunction(m, h)
    ensures forall k :: 0 <= k < |m| && k != FindAddress(g) ==> SetOutputState(m, g)[k] == m[k]
  {
    var m' := SetOutputState(m, g);
    OutputWordFields(m[FindAddress(g)], Slot(g), Slot(g));
    forall h | 0 <= h <= MAX_GPIO && h != g
      ensures PinFunction(m', h) == PinFunction(m, h)
    {
      if FindAddress(h) == FindAddress(g) {
        if g <= MAX_GPIO {
          PinFieldsDisjoint(g, h);
        }
        OutputWordFields(m[FindAddress(g)], Slot(g), Slot(h));
      }
    }
  }

  lemma SetInputIdempotent(m: seq<bv32>, g: int)
    requires IsBlock(m) && g >= 0
    ensures SetInputState(SetInputState(m, g), g) == SetInputState(m, g)
  {
    InputWordIdempotent(m[FindAddress(g)], Slot(g));
  }

  /** Set-output then set-input gives the block set-input alone gives. */
  lemma SetOutputThenSetInput(m: seq<bv32>, g: int)
    requires IsBlock(m) && g >= 0
    ensures SetInputState(SetOutputState(m, g), g) == SetInputState(m, g)
  {
    OutputThenInputWord(m[FindAddress(g)], Slot(g));
  }
}
