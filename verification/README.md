# unseriOS: verified models of its core algorithms

This project models, in Dafny, the parts of unseriOS (a small AArch64 kernel and its loader)
whose behaviour is decided by code rather than by devices, and proves what they do for every
input.

- **Formatted output** (`libc/src/printf.c`). `Format` is the directive language as a parser
  with a printer; `Arguments` are the variadic arguments; `Denotation` gives each parsed item
  its text; `IntegerField` describes the 32-character scratch-array pipeline; `Sinks` describes
  the four output functions; `Printf` is the engine itself (scanner, digit loop, padding stages,
  reversing emitter, dispatch), proved to emit exactly the denoted text at consecutive indices
  through any sink; `PrintfApi` are the entry points. `Standard` and `StandardFormat` are an
  independent reading of section 7.21.6.1 of ISO/IEC 9899:2011, from the `*` arguments and the
  types that length modifiers name to the finished field. `Conformance`, `OmittedPrecision`,
  `Directives` and `FormatConformance` say exactly when the engine meets it, and `RoundTrip` and
  `PrefixedRoundTrip` when its output reads back. `Spelling` and `Pointers` say what formats
  spelled out in full print. `Departures` shows inputs on which these conditions fail. `FixedPoint` is the `%f` conversion from its precision loop to its whole
  part.
- **Address translation** (`kernel/src/mem.c`, `kernel/include/mem.h`, `kernel/src/mmu.S`).
  `Translation` is the hardware's table walk (section D8.3 of the Arm Architecture Reference
  Manual, DDI 0487), written without reference to the kernel. `Descriptors` and `KernelTables`
  build the tables in byte-addressed physical memory; `AddressMap` proves what every 64-bit
  virtual address translates to; `TranslationControl` checks the control register.
- **The loader** (`loader/src/loader.c`). `Loader` runs `copy_kernel` with every load and store
  translated through the tables just built, in the same memory that holds the tables; `Elf`
  writes ELF headers as `kernel/include/elf.h` lays them out and says what the loader makes of
  them.
- **Cache maintenance** (the `dcache` macro of `kernel/src/mmu.S`). `CacheWalk` is the
  set/way walk and the reading that section C5.3 of DDI 0487 gives its operands.
- **Copies and hexadecimal printing** (`libc/src/memmove.c`, `loader/src/loader.c`,
  `kernel/include/util.h`): `Copies` and `HexPrint`.

Integers are mathematical; where the source's width matters it is written out: digit runs and
string lengths modulo 2^32, register shifts modulo 2^64, the 32-bit zero-fill count and its int index, the
`(int)` of the returned length, negation at the minimum integer, and the wrap of `maxlen - 1`.
`char` is unsigned, as for the compiler named in the Makefile; `long`, `long long`,
`ptrdiff_t`, `intmax_t`, `size_t` and pointers have 64 bits. The engine's flag word is a record
of booleans, one per bit. Variadic arguments are a sequence of 32-bit slots, 64-bit slots and
strings, and `Denotation.Matches` says that a list suits a format. `dafny verify dfyconfig.toml`
checks everything.

Some laws are false of the code as it stands, and the models keep the code as it is. Each is
proved to hold exactly under a condition on the inputs, and an input on which it fails is given:

- the standard's text for an integer, a string, a character or a whole directive
  (`Conformance.IntegerConformsIff`, `OmittedPrecision.NegativePrecisionIff`,
  `Directives.StringDirectiveIff`, `FormatConformance.DirectiveIff`): the lemmas of `Departures`;
- numbers that read back (`RoundTrip.RoundTripIff`, `PrefixedRoundTrip.AnyRoundTripIff`,
  `Directives.DirectiveReadsBackIff`): `Departures.LostSignReadsPositive`, `LostDigitReadsZero`
  and `SignedCharIsMisread`, and `PrefixedRoundTrip.PrefixTakesDigits`;
- a decimal point in every fixed-point text (`FixedPoint.PointLostIff`):
  `FixedPoint.PointIsLost` and `LongPrecisionLosesPoint`;
- segments that are loaded at their stated size (`Loader.StatedSizeIff`): `Loader.WrongSizes`;
- set/way operands that never collide (`CacheWalk.WalkReadsBackIff`):
  `CacheWalk.OversizedCacheCollides`.

## Model

| member | source | states |
|---|---|---|
| Printf.Vsnprintf | libc/src/printf.c:578-856 | for every complete format and matching arguments, and any sink and bound, the calls made are the denoted text at indices 0, 1, 2, … and then one clamped terminator; the returned number is the length below 2^31, and in any case the int congruent to it; a null buffer selects the null output |
| Printf.FormatDirective | libc/src/printf.c:602-848 | one directive emits exactly its text from the current index, consumes its arguments in order and stops behind its conversion character |
| Printf.ScanDirective | libc/src/printf.c:602-682 | flags, width, precision and length are the engine's setting for the grammar's parse of the directive, with `*` arguments taken in order |
| Printf.ScanFlags | libc/src/printf.c:602-613 | the maximal run of flag characters, as a set |
| Printf.ScanWidth | libc/src/printf.c:615-630 | a digit run modulo 2^32, an `int` argument (negative: left-justify its absolute value) or nothing |
| Printf.ScanPrecision | libc/src/printf.c:632-645 | a digit run modulo 2^32, and a precision of 0 for a bare point or a negative argument |
| Printf.ScanLength | libc/src/printf.c:647-681 | one or two modifier characters |
| Printf.Atoi | libc/src/printf.c:189-196 | the value modulo 2^32 of the maximal digit run, and the position behind it |
| Printf.Strnlen | libc/src/printf.c:172-177 | the bounded length of a string, as an unsigned int |
| Printf.Ntoa | libc/src/printf.c:282-327 | the integer text is emitted for every value, base 2 to 16, width, precision and flag set, without leaving the scratch array |
| Printf.GenerateDigits | libc/src/printf.c:292-299 | the scratch array holds the canonical numeral backwards, cut to its last 32 digits |
| Printf.NtoaFormat | libc/src/printf.c:228-278 | padding, prefix, sign and justification applied to whatever digits are in the scratch array |
| Printf.PadZeros | libc/src/printf.c:230-241 | zeros in front of the digits up to the larger of precision and padded width, within 32 |
| Printf.StripScratch | libc/src/printf.c:245-250 | what `#` removes when the length equals the precision or the width |
| Printf.PushPrefix | libc/src/printf.c:251-262 | the prefix characters that find room |
| Printf.PushSign | libc/src/printf.c:265-275 | the sign, if there is room for it |
| Printf.OutRev | libc/src/printf.c:200-224 | blanks, the scratch text and blanks, at consecutive indices |
| Printf.ConvertInteger | libc/src/printf.c:684-755 | every length modifier and base, with two's-complement magnitudes |
| Printf.ReadArgument | libc/src/printf.c:720-751 | magnitude and sign stand for the number congruent to the passed bits in the 64-, 32- or 16-bit type, signed for d and i, and in the unsigned 8-bit type for hh |
| Printf.ConvertChar | libc/src/printf.c:775-793 | one character padded to the width |
| Printf.ConvertString | libc/src/printf.c:795-819 | the clipped string padded by its 32-bit length |
| Printf.ConvertPointer | libc/src/printf.c:821-837 | sixteen capital hexadecimal digits whatever width was given |
| Pointers.PointerFormat | libc/src/printf.c:821-837 | `%p` prints sixteen digits out of 0-9 and A-F that denote the pointer in base 16 |
| Pointers.PointerWidthIgnored | libc/src/printf.c:822 | a written width makes no difference |
| Pointers.PointerDigits | libc/src/printf.c:821-837 | the same for every setting without `-`, `+`, blank and `#`, and with a precision up to 16 |
| Pointers.PointerReadsBack | libc/src/printf.c:821-837 | without `#`, whatever the other flags, the field reads back as the pointer |
| Pointers.HashPointerIff | libc/src/printf.c:821-837 | with `#` it reads back exactly when 14 digits suffice |
| Sinks.Sink.Out | libc/src/printf.c:134-167 | each of the four output functions keeps buffer and stream equal to what the calls so far make of them |
| Sinks.RunTruncates | libc/src/printf.c:134-139 | a run leaves the first min(length, count-1) characters, a terminator and the untouched rest; nothing when the count is 0 |
| Sinks.TruncationsAgree | libc/src/printf.c:882-889 | two runs of one text under different counts agree as far as both reach, change nothing behind the terminator, and coincide when the text fits |
| Sinks.RunStreams | libc/src/printf.c:150-167 | a streaming output receives the text without its zero characters |
| PrintfApi.Snprintf | libc/src/printf.c:882-902 | the buffer holds the truncated denotation, and the full length is returned as an int for every count, also for a null buffer |
| PrintfApi.Sprintf | libc/src/printf.c:872-879 | the whole text and a terminator, nothing else changed, and the length as an int |
| PrintfApi.PrintfOut | libc/src/printf.c:861-869 | the stream, and the length as an int |
| PrintfApi.Fctprintf | libc/src/printf.c:905-913 | the stream, and the length as an int |
| PrintfApi.StreamIsText | libc/src/printf.c:150-156 | the stream loses the zero characters and no others, so that it is the whole text exactly when the text has none |
| Format.DirectiveRoundTrip | libc/src/printf.c:602-681 | scanning any printed directive, wherever it stands and however large its numbers, recovers the record and stops behind its conversion character |
| Format.FormatRoundTrip | libc/src/printf.c:588-849 | parsing a printed format recovers its items |
| Denotation.MagnitudeIsAbs | libc/src/printf.c:726-735 | `value > 0 ? value : 0 - value` as unsigned is the absolute value, also at the minimum |
| Arguments.StarArgIs | libc/src/printf.c:621-641 | a star takes an argument as the int congruent to its bits |
| StandardFormat.IntegerArgumentIs | libc/src/printf.c:720-751 | the standard's argument is the number congruent to the passed bits in the type the modifier names |
| Spelling.IntegerSpelling | libc/src/printf.c:647-755 | for d i u x X o b and every length modifier written out: base 10, 8, 16 or 2, signed for d and i, capitals for X; the text is the standard's and reads back as the argument passed, except for a negative hh and binary numbers of more than 32 digits |
| Spelling.WidthPrints | libc/src/printf.c:616-619 | `%5d` of 42 |
| Spelling.MinusPrints | libc/src/printf.c:607 | `%-5d` of 42 |
| Spelling.PlusPrints | libc/src/printf.c:608 | `%+d` of 42 |
| Spelling.SpacePrints | libc/src/printf.c:609 | `% d` of 42 |
| Spelling.ZeroPrints | libc/src/printf.c:606 | `%05d` of 42 |
| Spelling.HashPrints | libc/src/printf.c:610 | `%#x` of 42 |
| Spelling.PrecisionPrints | libc/src/printf.c:633-639 | `%.3d` of 42 |
| Spelling.StarWidthPrints | libc/src/printf.c:620-629 | `%*d` of 5 and 42 |
| Spelling.StarMinusPrints | libc/src/printf.c:622-625 | `%*d` of -5 and 42 |
| Spelling.StarPrecisionPrints | libc/src/printf.c:640-644 | `%.*d` of 3 and 42 |
| Spelling.CharPrints | libc/src/printf.c:775-793 | `%c` prints the character passed |
| Spelling.StringPrints | libc/src/printf.c:795-819 | `%s` prints the whole string |
| Spelling.PointPrints | libc/src/printf.c:634-645 | `%.s` prints nothing of any string |
| Spelling.PercentPrints | libc/src/printf.c:839-842 | `%%` prints a percent sign and takes no argument |
| Spelling.FloatsAreNotModelled | libc/src/printf.c:757-774 | exactly f, F, e, E, g and G are left to the floating-point conversions, and other letters print themselves |
| Conformance.IntegerConformsIff | libc/src/printf.c:228-327 | the engine's integer text is the standard's exactly when digits, precision and zero padding fit 32 characters, `-` discards no precision, `#` finds room and does not strip digits, and the sign is kept |
| Conformance.FieldLength | libc/src/printf.c:200-302 | a conforming unprefixed field has length max(width, max(digits, precision) + sign) |
| Conformance.FieldsIff | libc/src/printf.c:200-278 | fields are equal exactly when their bodies are and the sign survives, or is a blank that padding supplies |
| Conformance.BodiesIff | libc/src/printf.c:230-263 | the same for digits, zeros and prefix in bases 2, 8, 10 and 16 |
| Conformance.StdIsJustified | libc/src/printf.c:690-719 | the standard's field is a sign and body justified to the width |
| Directives.IntegerDirectiveIff | libc/src/printf.c:684-755 | an integer directive's text is the standard's field of the argument in the type its length modifier names exactly when no signed char is misread, width and precision fit 32 bits, the field conforms, and a negative precision argument does no harm |
| Directives.DirectiveReadsBackIff | libc/src/printf.c:684-755 | an integer directive with any flags reads back as its argument exactly when no signed char is misread and the field survives (AnyRoundTripIff) |
| Directives.StringDirectiveIff | libc/src/printf.c:795-819 | a string field is the standard's exactly when width and length lose the same high bits or neither side pads, or when the characters a reduced or negative precision drops are blanks that the padding restores |
| Directives.CharDirectiveIff | libc/src/printf.c:775-793 | a character field is the standard's exactly when its width fits 32 bits |
| Directives.ReadingsAgree | libc/src/printf.c:602-681 | engine and standard take the same arguments for a directive's parts, and their settings differ only in high bits and in a negative precision |
| FormatConformance.DirectiveIff | libc/src/printf.c:602-848 | for every directive and argument list, the standard defines a text and the engine's is equal to it exactly under the directive's condition |
| FormatConformance.SameArguments | libc/src/printf.c:602-848 | also a directive that departs consumes the arguments the standard says |
| FormatConformance.OutputIsStandard | libc/src/printf.c:578-856 | the whole output is the concatenation of the standard's fields if no directive departs, and is not if exactly one does |
| OmittedPrecision.NegativePrecisionIff | libc/src/printf.c:640-644 | a negative `*` precision, counted as 0 here and as omitted by the standard, gives the standard's integer text exactly for nonzero values that conform and that zero padding would not widen |
| Departures.BinaryLosesDigits | libc/src/printf.c:293-298 | `%lb` of 2^32 is 32 zeros |
| Departures.LostDigitReadsZero | libc/src/printf.c:293-298 | and reads back as 0 |
| Departures.LeftDropsPrecision | libc/src/printf.c:231 | `%-.3d` of 7 is 7 |
| Departures.LongPrecisionIsCut | libc/src/printf.c:235 | `%.33d` of 1 has 32 digits |
| Departures.WideZerosAreCut | libc/src/printf.c:238 | `%033d` of 1 has 32 digits |
| Departures.FullArrayLosesSign | libc/src/printf.c:265 | `%.32d` of -1 has no sign |
| Departures.LostSignReadsPositive | libc/src/printf.c:265 | and reads back as 1 |
| Departures.ZeroLosesOctalDigit | libc/src/printf.c:287-292 | `%#.0o` of 0 is empty |
| Departures.OctalGainsZero | libc/src/printf.c:245-262 | `%#.5o` of 8 has a sixth digit |
| Departures.OctalLeftDropsPrecision | libc/src/printf.c:231 | `%-#.4o` of 8 is 010 |
| Departures.OctalEatsDigit | libc/src/printf.c:245-250 | `%#2o` of 8 is 00 |
| Departures.OctalWideZerosAreCut | libc/src/printf.c:238 | `%#033o` of 8 has 32 digits |
| Departures.PrefixLosesZero | libc/src/printf.c:251-262 | `%#b` of 2^30 starts with b1 |
| Departures.HexLeftDropsPrecision | libc/src/printf.c:231 | `%-#.3x` of 1 is 0x1 |
| Departures.PrecisionCrowdsPrefix | libc/src/printf.c:251-262 | `%#.31x` of 1 starts with x |
| Departures.HashEatsDigits | libc/src/printf.c:245-250 | `%#4x` of 0x1234 is 0x34 |
| Departures.HashEatsOneDigit | libc/src/printf.c:245-250 | `%#05x` of 0x1234 is 0x234 |
| Departures.ZerosCrowdPrefix | libc/src/printf.c:238 | `%#033x` of 1 has no prefix |
| Departures.BinaryPrefixWidens | libc/src/printf.c:245-250 | `%#010b` of 5 is 11 characters wide |
| Departures.SignedCharIsMisread | libc/src/printf.c:734 | `%hhd` of -1 is 255 |
| Departures.NegativePrecisionHidesZero | libc/src/printf.c:640-644 | `%.*d` of -1 and 0 is empty |
| Departures.NegativePrecisionHidesText | libc/src/printf.c:640-644 | `%.*s` of -1 and any string is empty |
| Departures.NegativePrecisionDropsZeros | libc/src/printf.c:640-644 | `%05.*d` of -1 and 7 is padded with blanks |
| Departures.NegativePrecisionBlanksText | libc/src/printf.c:640-644 | `%5.*s` of -1 and a short string is blank |
| Departures.UndefinedIsPrinted | libc/src/printf.c:843-846 | `%n` prints its letter and takes no argument |
| Departures.WideWidthWraps | libc/src/printf.c:617-618 | `%4294967297c` is one character wide |
| Departures.WideIntegerWraps | libc/src/printf.c:617-618 | `%4294967301d` of 7 is five characters wide |
| Departures.LongPrecisionWraps | libc/src/printf.c:637-638 | `%.4294967296d` of 7 is one digit |
| Departures.LongStringIsPadded | libc/src/printf.c:797-806 | `%1s` of a string of 2^32 characters starts with a blank |
| Departures.TwoDeparturesCancel | libc/src/printf.c:578-856 | in `%-.1d%#.5o` of 0 and 8 neither field is the standard's and the output is |
| RoundTrip.FieldReadsBack | libc/src/printf.c:228-327 | what every unprefixed field reads back as: the digits kept, and the sign if it found room |
| RoundTrip.RoundTripIff | libc/src/printf.c:228-327 | without `#`, value and sign survive exactly when at most 32 digits are needed and a minus sign finds room beside the padding |
| PrefixedRoundTrip.HashRoundTripIff | libc/src/printf.c:228-327 | a field with `#` reads back, prefix and all, exactly when all digits were kept, `#` took nothing but zeros, and a two-character prefix was written as a whole or not at all |
| PrefixedRoundTrip.AnyRoundTripIff | libc/src/printf.c:228-327 | the exact condition for every integer field |
| PrefixedRoundTrip.PrefixTakesDigits | libc/src/printf.c:245-262 | the texts of `%#4x` of 0x1234 and `%#.31x` of 1 read as 0x34 and 0 |
| RoundTrip.KeptDigits | libc/src/printf.c:293-298 | the number kept is the value modulo base^32 |
| RoundTrip.AlternateForm | libc/src/printf.c:243-263 | a `#0` field with room is exactly its width, starts with the prefix and denotes the value behind it |
| FixedPoint.EmitFixed | libc/src/printf.c:413-438 | the scratch array reads as whole part, point, counted zeros, fraction and what was there, cut to 32 characters, for every input |
| FixedPoint.FixedPointText | libc/src/printf.c:413-438 | with a fraction below 10^prec the text is the whole part, the point, exactly prec fraction digits and the old zeros exactly when these fit 32 characters, and the digits denote (whole·10^prec + frac)·10^k |
| FixedPoint.PointIff | libc/src/printf.c:413-438 | the point is written exactly when the fraction is below 10^prec and the places behind the point leave room; otherwise the counter wraps or the array is full |
| FixedPoint.RoundFraction | libc/src/printf.c:389-402 | rounding adds one unit of the last place or nothing, and leaves a fraction of 10^prec exactly when one half is added to a fraction of nines |
| FixedPoint.LimitPrecision | libc/src/printf.c:378-382 | places beyond the ninth become zeros in the array, one for one |
| FixedPoint.FtoaDigits | libc/src/printf.c:378-438 | for every written precision from 1 to 41 the array holds the rounded number's text, and the point is missing exactly for a fraction of nines and one half, or a precision of 32 or more |
| FixedPoint.PointLostIff | libc/src/printf.c:389-438 | after rounding, the point is lost exactly for a fraction of nines and one half, or when the places alone fill the array |
| FixedPoint.PointIsLost | libc/src/printf.c:399-430 | `%.1f` of 0.95 is 30 zeros and 10 |
| FixedPoint.LongPrecisionLosesPoint | libc/src/printf.c:378-438 | `%.32f` of 1.5 is nine fraction digits and 23 zeros |
| Descriptors.LargePageMaps | kernel/src/mem.c:82-101 | the hardware reads a large-page descriptor as its 2 MiB block, execute-never with MAIR entry 0 for device memory, executable with entry 4 for normal memory |
| Descriptors.TableEntryLeads | kernel/src/mem.c:105-113 | a table descriptor sends the walk to its page and restricts nothing |
| Descriptors.BlockAddressIff | kernel/src/mem.c:84 | block addresses survive encoding and decoding exactly when aligned and below 2^48 |
| Descriptors.PdIndices | kernel/include/mem.h:29-32 | both index macros pick the gigabyte of the physical address |
| KernelTables.FillTables | kernel/src/mem.c:147-172 | all 263168 entries of a set of tables, and no byte outside them changed |
| KernelTables.FillPud | kernel/src/mem.c:150-152 | every upper entry points at its page directory |
| KernelTables.FillLargePages | kernel/src/mem.c:155-161 | one page directory of consecutive 2 MiB blocks |
| KernelTables.KernelSetupTranslationTables | kernel/src/mem.c:115-173 | slot 511, device memory from 0 and normal memory from 2 GiB |
| KernelTables.SetupIdentMap | kernel/src/mem.c:203-230 | slot 0, device memory from 0 and normal memory from 1 GiB |
| AddressMap.WalkOfBuilt | kernel/src/mem.c:147-172 | the walk through finished tables, for every address |
| AddressMap.TranslationIsIntended | kernel/src/mem.c:115-230 | every 64-bit address translates to itself below 2 GiB, to its offset in the kernel window for gigabytes 0 and 2, with the right type and execute permission, and faults otherwise |
| AddressMap.AttributesConsistent | kernel/src/mem.c:147-230 | no physical address has two memory types, and no normal address is mapped twice |
| AddressMap.MairTypes | kernel/src/mmu.S:221-225 | the value written to MAIR_EL1 makes entry 0 device nGnRnE and entry 4 normal write-back, as the address map requires |
| TranslationControl.TcrSelectsWalk | kernel/src/mmu.S:228-231 | 48-bit halves, 4 KiB granules, walks enabled and the processor's address size |
| Loader.CopyKernel | loader/src/loader.c:56-102 | bad magic, an unloadable header, a store that faults and an ordinary return are told apart exactly; memory is the loaded image of the headers passed, and the tables are untouched |
| Loader.LoadSegment | loader/src/loader.c:73-96 | one header's segment lands on top of what is loaded, up to the end of the window, and faults exactly if it goes beyond |
| Loader.Memcpy | loader/src/loader.c:18-27 | the translated copy, byte for byte up to a fault, and nothing else changed |
| Loader.ClearTail | loader/src/loader.c:87-96 | exactly the counted bytes behind the file bytes become zero, up to a fault; without a fault the tail ends at p_vaddr + p_memsz exactly when p_filesz <= p_memsz and this is inside the window |
| Loader.StoreByte | loader/src/loader.c:94-95 | a store to the window changes one physical byte, a store behind it faults, and the tables stay able to translate |
| Loader.SegmentContents | loader/src/loader.c:86-96 | with disjoint segments each one is its file bytes and then zeros, whatever else is loaded |
| Loader.OutsideSegments | loader/src/loader.c:86-96 | nothing outside the segments changes |
| Loader.SegmentThroughTables | loader/src/loader.c:115-123 | the kernel reads each loaded byte of disjoint segments at its virtual address as executable normal memory, holding a file byte or a zero |
| Loader.StatedSizeIff | loader/src/loader.c:86-96 | a segment is loaded without a fault and at p_memsz bytes exactly when p_filesz <= p_memsz and it ends inside the window |
| Loader.WrongSize | loader/src/loader.c:87-96 | p_memsz below p_filesz always faults; loading short happens exactly from p_filesz + 2^32 on |
| Loader.WrongSizes | loader/src/loader.c:87-96 | 2^32 + 16 bytes are loaded as 16; 8 file bytes in 4 bytes of memory fault |
| Loader.WindowStoresKeepTables | loader/src/loader.c:86-95 | stores into the kernel window cannot reach the tables |
| Loader.Lmain | loader/src/loader.c:104-124 | from blank tables: an entry point is returned exactly for a good magic and loadable headers that fit, the other endings are told apart exactly, memory outside the tables is the loaded image of the headers passed, the image is unchanged, and disjoint segments are in place through the tables |
| Elf.LoadElf | loader/src/loader.c:56-124 | on an image that starts with encoded headers, the ending follows from the magic bytes, bit 0 of p_type, p_vaddr, p_filesz and p_memsz, the entry point is e_entry, and separate segments are in place through the tables |
| Elf.HeaderReads | kernel/include/elf.h:13-28 | the loader reads the magic, e_entry, e_phoff, e_phentsize and e_phnum where the header's bytes have them |
| Elf.ProgramReads | kernel/include/elf.h:32-41 | and p_type, p_offset, p_vaddr, p_filesz and p_memsz of every program header |
| CacheWalk.CacheUnit.Dcache | kernel/src/mmu.S:72-124 | for any CLIDR and CCSIDR the operations issued are those of a list in which every line of a data or unified cache below the point of coherency, by the registers' fields, stands once and no other line at all |
| CacheWalk.CacheUnit.WalkLevel | kernel/src/mmu.S:91-112 | all sets and ways of the selected cache |
| CacheWalk.CacheUnit.WalkSet | kernel/src/mmu.S:100-110 | all ways of one set |
| CacheWalk.EveryLineOnce | kernel/src/mmu.S:72-124 | the same for the walk's operations as a function of the registers |
| CacheWalk.DueReadsBack | kernel/src/mmu.S:91-108 | the hardware reads the operand of such a line as its level, set and way, when the fields of CCSIDR have room in 32 bits |
| CacheWalk.WalkReadsBackIff | kernel/src/mmu.S:91-108 | the hardware reads every operand as the line it was issued for exactly when line, set and way bits fit 32 at each visited level |
| CacheWalk.PackingInjectiveIff | kernel/src/mmu.S:91-107 | operands of one geometry never coincide exactly when the fields fit |
| CacheWalk.OperandDecodes | kernel/src/mmu.S:92-107 | packing and the architecture's reading are inverse, also for a direct-mapped cache |
| CacheWalk.Collision | kernel/src/mmu.S:103-107 | otherwise way 1 of set 0 and way 0 of another set share an operand |
| CacheWalk.OversizedCacheCollides | kernel/src/mmu.S:72-107 | registers that describe such a cache, and the two lines |
| Copies.LibcMemmove | libc/src/memmove.c:3-14 | the destination holds the old source and nothing else changes, for every overlap |
| Copies.LoaderMemmove | loader/src/loader.c:29-54 | the same, so both implementations agree |
| Copies.Memcpy | loader/src/loader.c:18-27 | memory after an ascending byte-by-byte copy |
| Copies.ForwardMovesIff | loader/src/loader.c:39-45 | an ascending copy moves every memory correctly exactly when the destination does not start inside the source behind its first byte |
| HexPrint.PutHex32 | kernel/include/util.h:12-24 | the printed string is 0x and the engine's `%08x` output, and denotes the value |
| HexPrint.PutHex64 | kernel/include/util.h:26-38 | the printed string is 0x and the engine's `%016llx` output, and denotes the value |

## Left out

- Floating-point conversion (`%f %e %g`): rounding, scaling and the exponent depend on IEEE double arithmetic; only the rounding decision and the digit emission of `_ftoa` are modelled, and its zero padding and sign repeat the integer stages.
- Printf.Vsnprintf: takes complete formats and matching arguments only, because a format that ends inside a directive reads behind its terminator, and counts characters without the wrap of size_t at 2^64.
- Format.DirectiveRoundTrip: speaks of directives the language can write, since a printed width of 0 reads as a flag.
- FormatConformance.OutputIsStandard: is silent on formats with two or more departing directives, whose wrong fields may or may not concatenate to the right text; Departures.TwoDeparturesCancel is one where they do.
- StandardFormat.StdConvert: has no text for `%p`, which is left to the implementation, nor for `%n`, `%a`, the floating-point and wide conversions and the flag combinations that the standard leaves undefined; such directives count as departing, and what the engine prints for them is stated in Denotation only.
- FixedPoint.FtoaDigits: leaves out a precision of 0, which writes the whole part alone, and precisions above 41, for which the source has no power of ten.
- FixedPoint.RoundFraction: takes the scaled fraction and the comparison of its rest with one half as inputs, because they come out of double arithmetic.
- Translation.Translate: models stage 1 at EL1 with the register values the kernel writes; permissions are the execute-never and read-only bits, without shareability, address-space identifiers or TLBs.
- Loader.CopyKernel: takes segments whose source lies in the 1 MiB image and whose destination starts in the window of normal memory at the kernel base plus 2 GiB; a faulting store ends the run, without the exception handler; debug printing is omitted.
- Elf.LoadElf: takes images whose program headers lie inside the 1 MiB image, and reads no section headers, as the loader does not.
- Loader.Memcpy: is the copy as `copy_kernel` uses it, through the tables; Copies.Memcpy is the same loop on flat memory, as `memmove` uses it.
- CacheWalk.CacheUnit.Dcache: leaves out barriers and the effect of an operation on cache contents.
- Exception vectors, exception-level switching, interrupt controller, timer and UART code: register traffic with little state of its own.
- `strlen`, `memset`, `memcmp`, `puts`, `putchar`, `abort` and the call sequence of `kernel.c`: too simple to add anything.
