/**
 * Pin resolution: how a caller's pin number becomes a canonical GPIO index,
 * either through the 40-position header table (physical numbering) or
 * directly (logical numbering).
 */
module Pins {

  /** Table entry for a header position that is power, ground or reserved. */
  const NOT_USABLE: int := -1

  /** Canonical GPIO index of header positions 1..40 (0-based here). */
  const PHYSICAL_TO_GPIO: seq<int> :=
    [ -1, -1,  2, -1,  3, -1,  4, 14, -1, 15, 17, 18, 27, -1, 22, 23, -1, 24, 10, -1,
       9, 25, 11,  8, -1,  7, -1, -1,  5, -1,  6, 12, 13, -1, 19, 16, 26, 20, -1, 21 ]

  /** Header position of each of GPIO 2..27 (index `g - 2`): the inverse of the table. */
  const HEADER_POSITION: seq<int> :=
    [  3,  5,  7, 29, 31, 26, 24, 21, 19, 23, 32, 33,  8, 10, 36, 11, 12, 35, 38, 40,
      15, 16, 18, 22, 37, 13 ]

  /** Outcome of resolving a caller's pin number. */
  datatype Resolution = Gpio(index: nat) | Unusable

  /** The range guard of physical mode, as written (a conjunction): it never holds. */
  predicate PhysicalGuard(pin: int)
    ensures !PhysicalGuard(pin)
  {
    pin < 1 && pin > 40
  }

  /** The range guard of logical mode, as written (a conjunction): it never holds. */
  predicate LogicalGuard(pin: int)
    ensures !LogicalGuard(pin)
  {
    pin < 2 && pin > 27
  }

  /**
   * The pin numbers the model covers: a header position in physical mode (any
   * other number indexes outside the table), a non-negative index in logical
   * mode. C's remainder truncates toward zero, so a negative index shifts by a
   * negative amount unless it is a multiple of 10 (set-input, set-output) or
   * of 32 (read, write, clear); those few defined negative indices act like
   * pin 0 and are not covered either.
   */
  predicate Defined(physical: bool, pin: int)
  {
    if physical then 1 <= pin <= 40 else pin >= 0
  }

  /** The resolution prologue shared by every pin operation. */
  function Resolve(physical: bool, pin: int): (r: Resolution)
    requires Defined(physical, pin)
    ensures !physical ==> r == Gpio(pin)
    ensures physical ==> (r == Unusable <==> PHYSICAL_TO_GPIO[pin - 1] == NOT_USABLE)
    ensures physical && r.Gpio? ==> r.index as int == PHYSICAL_TO_GPIO[pin - 1]
    ensures physical && r.Gpio? ==> 2 <= r.index <= 27
  {
    if physical then
      if PhysicalGuard(pin) then Unusable
      else
        var gpin := PHYSICAL_TO_GPIO[pin - 1];
        if gpin == NOT_USABLE then Unusable else Gpio(gpin)
    else
      if LogicalGuard(pin) then Unusable else Gpio(pin)
  }

  /** Every usable header position is where the inverse table says it is. */
  lemma HeaderPositionLeftInverse(p: int)
    requires 1 <= p <= 40 && PHYSICAL_TO_GPIO[p - 1] != NOT_USABLE
    ensures 2 <= PHYSICAL_TO_GPIO[p - 1] <= 27
    ensures HEADER_POSITION[PHYSICAL_TO_GPIO[p - 1] - 2] == p
  {
  }

  /** Every GPIO 2..27 is brought out at the header position the inverse table gives. */
  lemma HeaderPositionRightInverse(g: int)
    requires 2 <= g <= 27
    ensures 1 <= HEADER_POSITION[g - 2] <= 40
    ensures PHYSICAL_TO_GPIO[HEADER_POSITION[g - 2] - 1] == g
  {
  }

  /** Two header positions never resolve to the same GPIO. */
  lemma PhysicalResolutionInjective(p: int, q: int)
    requires 1 <= p <= 40 && 1 <= q <= 40
    requires Resolve(true, p).Gpio? && Resolve(true, p) == Resolve(true, q)
    ensures p == q
  {
    HeaderPositionLeftInverse(p);
    HeaderPositionLeftInverse(q);
  }

  /** Physical numbering reaches exactly GPIO 2..27. */
  lemma PhysicalResolutionOnto(g: int)
    ensures (exists p :: 1 <= p <= 40 && Resolve(true, p).Gpio? && Resolve(true, p).index == g) <==> 2 <= g <= 27
  {
    if 2 <= g <= 27 {
      HeaderPositionRightInverse(g);
      var p := HEADER_POSITION[g - 2];
      assert Resolve(true, p).Gpio? && Resolve(true, p).index == g;
    }
  }

  /** Header position 11 is GPIO 17; in logical mode 17 is GPIO 17. */
  lemma ResolveExamples()
    ensures Resolve(true, 11) == Gpio(17)
    ensures Resolve(false, 17) == Gpio(17)
    ensures Resolve(true, 1) == Unusable && Resolve(true, 6) == Unusable
  {
    assert PHYSICAL_TO_GPIO[10] == 17;
    assert PHYSICAL_TO_GPIO[0] == NOT_USABLE && PHYSICAL_TO_GPIO[5] == NOT_USABLE;
  }
}
