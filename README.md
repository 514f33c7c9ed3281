# RPI2-GPIO register core in Dafny

This project models the core of a small Raspberry Pi 2 GPIO driver (`gpio.cpp`).
The driver maps the BCM2835 GPIO register block into memory. It then drives pins
by reading and writing 32-bit words of that block. Every pin operation runs
through the same three layers:

1. **Pin resolution** (`pins.dfy`, module `Pins`). A process-wide flag chooses
   the numbering.
   - In physical numbering, a header position 1..40 goes through the 40-entry
     table `physicalToGPIO`. The entry -1 marks power, ground and reserved
     positions; the operation then returns 1 and touches nothing.
   - In logical (GPIO) numbering, the number is the GPIO index itself.
   - The range guards are written `pin < 1 && pin > 40` and `pin < 2 && pin > 27`.
     The model keeps them exactly as written (`PhysicalGuard`, `LogicalGuard`),
     and their contracts state that they never hold.
2. **Address resolution** (`registers.dfy`, module `Registers`).
   - `FindAddress` picks one of the six function-select words (ten 3-bit fields each), or the word 0x20 for a pin above 53.
   - The set, clear and level banks use word 0 for pins up to 31 and word 1 otherwise (`BankWord`).
   - Word indices follow the register table of the *BCM2835 ARM Peripherals* datasheet, pages 90-96: GPFSEL0..5 = 0..5, GPSET0/1 = 7/8, GPCLR0/1 = 10/11, GPLEV0/1 = 13/14.
3. **Bit mutation** (`gpio.dfy`, module `Gpio`). The class `Controller` owns the
   register block (`mem: array<bv32>` of 1024 words, the 4096-byte
   `GPIO_BLOCK`) and the numbering flag.
   - Set-input clears the pin's 3-bit field with a read-modify-write.
   - Set-output ORs the code 001 into the field.
   - Write-pin and clear-pin overwrite the whole set or clear word with one bit.
   - Read-pin returns the level word masked to the pin's bit, converted from
     `unsigned int` to `int`. It is not shifted down to 0/1.

Each method is specified by a pure function on the block as a `seq<bv32>`.
These are `SetInputState`, `SetOutputState`, a sequence update for write
and clear, and `LevelReading` for read. The frame, idempotence, round-trip and
reading properties are proved as lemmas about those functions.

The conversion of the read result to `int` is `ToCInt`: the two's-complement
value of the 32 bits. Before C++20 the language left the conversion of an
`unsigned int` above `INT_MAX` to the compiler. Two's complement is what the
compilers for the board do, not something the language promised.

`LevelReading` is an independent reference definition. It is 0 for a low pin and the pin's bit weight for a high one, and that weight
is negative for bit 31. `LevelWordReading` proves that the driver's mask-and-convert
computation agrees with it.

Intent against code:
- The comment on each guard, "check if pin exist on the RPI 2" (gpio.cpp:153, 163), shows that a range check was intended.
- The check never fires, because a number cannot be both below the low bound and above the high one. An out-of-table physical position then indexes the table outside its 40 entries.
- The model follows the code. The precondition `Defined` admits physical positions 1..40 and non-negative logical indices.
- C's `%` truncates toward zero. Most negative logical indices therefore shift by a negative amount, which is undefined.
- A negative multiple of 10 (for set-input and set-output) or of 32 (for read, write and clear) is defined and acts like pin 0. `Defined` leaves these out as well.
- Inside that domain the dead guard has a visible effect. Logical numbering accepts every non-negative index, so nothing caps it at 27. In logical mode set-input, set-output, write-pin and clear-pin always return 0.

## Model

| member | source | states |
|---|---|---|
| Registers.FindAddress | gpio.cpp:108-142 | the word found is inside the 1024-word block and is one of GPFSEL0..5 or the sentinel 0x20 |
| Registers.FindAddressPartition | gpio.cpp:108-142 | a pin 0..53 gets function-select word `g / 10`, any pin above 53 gets 0x20, a negative index gets word 0 |
| Registers.BankWord | gpio.cpp:249-256 | the bank test `gpin <= 31` always picks one of the bank's two words |
| Registers.BankWordPartition | gpio.cpp:249-256 | for pins 0..63 the set/clear/level word chosen by the `gpin <= 31` test is bank word `g / 32` |
| Registers.SlotValue | gpio.cpp:177 | the field slot of a pin is `gpin % 10` |
| Registers.FieldOffsetValue | gpio.cpp:177 | the pin's 3-bit field starts at bit `3 * (gpin % 10)` |
| Registers.BitOfValue | gpio.cpp:261 | the bank bit of a pin is `gpin % 32` |
| Registers.PinMaskBits | gpio.cpp:300-301 | `1 << b` has bit `b` set and every other bit clear |
| Registers.InputWord | gpio.cpp:176-179 | the set-input update only clears bits: it sets no bit the old word lacks |
| Registers.OutputWord | gpio.cpp:213-215 | the set-output update only adds bits: every bit of the old word stays set |
| Registers.PinMask | gpio.cpp:260-261 | the value `1 << (gpin % 32)` has exactly one bit set |
| Registers.InputBit | gpio.cpp:176-179 | after the AND with the inverted `7 << offset` mask, a bit is set exactly when it was set before and lies outside the pin's field |
| Registers.InputWordBits | gpio.cpp:176-179 | the per-bit statement of set-input for all 32 bits of the word |
| Registers.OutputBit | gpio.cpp:213-215 | after the OR with `1 << offset`, a bit is set exactly when it was set before or is the low bit of the pin's field |
| Registers.OutputWordBits | gpio.cpp:213-215 | the per-bit statement of set-output for all 32 bits of the word |
| Registers.InputWordFields | gpio.cpp:176-179 | set-input makes the pin's field 000 and keeps the other nine fields of the word |
| Registers.OutputWordFields | gpio.cpp:213-215 | set-output ORs 001 into the pin's field, so 000 becomes 001 and other codes keep their high bits, and keeps the other nine fields |
| Registers.InputWordIdempotent | gpio.cpp:176-179 | applying the set-input update twice gives the same word as once |
| Registers.OutputThenInputWord | gpio.cpp:176-216 | set-output followed by set-input gives the word set-input alone gives |
| Registers.PinFieldsDisjoint | gpio.cpp:108-142 | two distinct pins 0..53 never share a function-select field |
| Registers.PinBitsDisjoint | gpio.cpp:289-301 | two distinct pins 0..53 never share a bit of a set, clear or level bank |
| Registers.SetInputState | gpio.cpp:176-180 | the block after set-input is a block again, and only the pin's function-select word can differ |
| Registers.SetOutputState | gpio.cpp:213-216 | the block after set-output is a block again, and only the pin's function-select word can differ |
| Registers.SetInputFrame | gpio.cpp:176-180 | on the block, set-input makes the pin's function code 0, keeps every other pin's code and every other word |
| Registers.SetOutputFrame | gpio.cpp:213-216 | on the block, set-output ORs 1 into the pin's code (000 becomes 001), keeps every other pin's code and every other word |
| Registers.SetInputIdempotent | gpio.cpp:176-180 | set-input twice leaves the block as set-input once |
| Registers.SetOutputThenSetInput | gpio.cpp:176-216 | set-output then set-input leaves the block as set-input alone, so the field is 000 again and every other bit is as before |
| Pins.PhysicalGuard | gpio.cpp:153 | the physical-mode guard `pin < 1 && pin > 40` holds for no pin, so it never rejects |
| Pins.LogicalGuard | gpio.cpp:163 | the logical-mode guard `pin < 2 && pin > 27` holds for no pin, so it never rejects |
| Pins.Resolve | gpio.cpp:151-167 | logical numbering yields the pin itself; physical numbering yields the table entry, fails exactly on the -1 entries, and only yields GPIO 2..27 |
| Pins.HeaderPositionLeftInverse | gpio.cpp:21-22 | every usable header position maps to a GPIO 2..27 whose inverse-table entry is that position |
| Pins.HeaderPositionRightInverse | gpio.cpp:21-22 | every GPIO 2..27 appears in the table at the position the inverse table gives |
| Pins.PhysicalResolutionInjective | gpio.cpp:21-22 | two header positions never resolve to the same GPIO |
| Pins.PhysicalResolutionOnto | gpio.cpp:21-22 | the GPIOs reachable in physical numbering are exactly 2..27 |
| Pins.ResolveExamples | gpio.cpp:21-22 | header position 11 is GPIO 17, logical 17 is GPIO 17, positions 1 and 6 are unusable |
| Gpio.ToCInt | gpio.cpp:264 | the returned `unsigned int`, read as a signed `int`, always lies in the 32-bit range |
| Gpio.ToCIntRange | gpio.cpp:264 | the `int` returned from an `unsigned int` lies in the 32-bit range and is negative exactly when bit 31 is set |
| Gpio.ToCIntOfMask | gpio.cpp:260-264 | a word with only bit `k` set converts to 2 to the power `k`, or to -2^31 for bit 31 |
| Gpio.PinWeight | gpio.cpp:260-264 | the weight of a pin's level bit is never 0, is negative exactly for bit 31, and fits a 32-bit `int` |
| Gpio.LevelReading | gpio.cpp:236-264 | the reference value of read-pin: 1 when the pin does not resolve, else 0 or the level bit's weight; every value fits a 32-bit `int` |
| Gpio.MaskedReading | gpio.cpp:262-264 | masking a word with one bit and converting gives 0 when that bit is clear and the bit's own reading when it is set |
| Gpio.MaskedPinReading | gpio.cpp:260-264 | the masked and converted level word of pin `g` is 0 or the weight of bit `g % 32` |
| Gpio.LevelWordReading | gpio.cpp:249-264 | the register computation of read-pin for a resolved pin equals the reference reading `LevelReading` |
| Gpio.LevelReadingSensesBit | gpio.cpp:249-264 | a resolved read is nonzero exactly when the pin's bit of GPLEV0/GPLEV1 is set |
| Gpio.LevelReadingSign | gpio.cpp:260-264 | a resolved read is negative exactly when the pin's level bit is bit 31 and is set |
| Gpio.HighPinSeventeenReading | gpio.cpp:260-264 | the result is not normalised: a high GPIO 17 reads 0x20000 |
| Gpio.ReadFailureLooksLikeHighPinZero | gpio.cpp:240 | the failure value 1 equals the reading of a high GPIO 0 |
| Gpio.ReadFailureUnambiguous | gpio.cpp:236-264 | within one numbering the value 1 has one meaning: failure in physical numbering, a high pin on bit 0 of its bank in logical numbering |
| Gpio.Controller.constructor | gpio.cpp:18-20 | a controller starts in GPIO numbering over a 1024-word block |
| Gpio.Controller.PhysicalNumberingOn | gpio.cpp:71-74 | reports the numbering flag the controller holds |
| Gpio.Controller.SetPhysicalNumbering | gpio.cpp:66-74 | afterwards `PhysicalNumberingOn()` returns the value set, and no register word changes |
| Gpio.Controller.SetInput | gpio.cpp:144-183 | status 1 with the block unchanged for an unusable position, otherwise status 0 and the block becomes `SetInputState`; status is always 0 in logical numbering |
| Gpio.Controller.SetOutput | gpio.cpp:185-219 | status 1 with the block unchanged for an unusable position, otherwise status 0 and the block becomes `SetOutputState`; status is always 0 in logical numbering |
| Gpio.Controller.ReadPin | gpio.cpp:221-265 | changes nothing and returns `LevelReading` of the block: 1 for an unusable position, else 0 or the level bit's weight |
| Gpio.Controller.WritePin | gpio.cpp:267-305 | status as for set-input; a resolved pin overwrites word 7 (`g <= 31`) or 8 with exactly `1 << (g % 32)` and changes no other word |
| Gpio.Controller.ClearPin | gpio.cpp:307-345 | status as for set-input; a resolved pin overwrites word 10 (`g <= 31`) or 11 with exactly `1 << (g % 32)` and changes no other word |

## Left out

- `init` and `closeMem` (gpio.cpp:76-106) open `/dev/mem`, `mmap` and unmap it: operating-system I/O. The model starts from an already allocated block passed to the constructor.
- The physical base-address constants (gpio.cpp:15-17) only choose the `mmap` offset and play no part once the block is an array.
- Hardware behaviour of the banks: a 1 written to a set or clear word drives that pin, and the level words follow the live inputs. The model treats all three as plain words; level values are whatever the array holds.
- `volatile` access and any concurrent use of the register block.
- main.cpp is a console demo with no logic of its own, and gpio.h holds declarations only; neither is part of this model.
- Pins.Resolve: the precondition `Defined` excludes physical positions outside 1..40, because the source then reads outside the table.
- Pins.Resolve: `Defined` also excludes negative logical indices. Most of them shift by a negative amount, which is undefined in C. The defined ones are the negative multiples of 10 for set-input and set-output and of 32 for read, write and clear. They act like pin 0, and the model does not cover them. Supporting them would need C's truncating remainder on signed indices throughout.
- Pin numbers are unbounded integers; the 32-bit width of C `int` is not modelled, since every shift count and word index the model uses stays far inside it.
- The process-wide globals (`physicalNumbering`, `mem_ptr`) become fields of one `Controller` object.
