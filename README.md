# rp2040 serial debug console — a Dafny model

This project models the command-line core of a debug console that runs on an
RP2040 and is driven over a USB serial port. A line typed by the user is split
into whitespace-separated tokens, and the first token names a command:

- `h`/`help` prints the help text;
- `b`/`boot` resets into the USB bootloader;
- `c`/`cmd`/`command BYTE*` clocks bytes through the QSPI flash chip and echoes
  the bytes it returns in hex;
- `r`/`read ADDR [WORDS=1]` prints words of memory in hex;
- `w`/`write ADDR WORD+` stores words into memory.

Numbers are parsed by a small codec. It accepts `0x`/`0X`, `0o` and `0b`/`0B`
prefixes, digits in either case, and `_` separators, and it checks every step
for overflow. Arguments that fail to parse, and wrong argument counts, are
reported as diagnostics on the serial port.

The project has four files:

- `wrappers.dfy` defines `Result`.
- `bounded_vec.dfy` models `heapless::Vec<T, N>` as a class:
  - it holds at most `N` elements;
  - `push` fails when it is full;
  - `reverse` works in place;
  - `clear` empties it.
- `byte_str.dfy` models the numeric codec of `src/byte_str.rs`:
  - `to_string` and its digit loop;
  - `parse_digit`, `parse_num`, and the `u8`/`u16`/`u32`/`usize` parsers.
  `usize` is 32 bits wide, as on the target.
- `cmdline.dfy` models `src/cmdline.rs`:
  - the tokenizer;
  - `parse_rest_args`;
  - `parse_with_error` with its five command arms;
  - `exec_cmd`;
  - the error rendering in `parse`.

The command layer is specified twice:

- Pure functions state what should happen. `ParseCommand` holds every check
  made before any effect. `Execute` gives the effect of a parsed command.
  `Respond` gives the whole effect of one line.
- A `Console` class mirrors the code step by step. It has the serial output
  (an append-only byte sequence), target memory (a map from addresses to
  32-bit words) and a reset flag. Each of its methods is proved to produce
  exactly what the functions say.

The model keeps two behaviours of the codec exactly as written:

- `parse_digit` checks `n * base` for overflow before it looks at the byte.
  So a trailing `_` after a large value reports `Overflow`.
- The `0b` prefix selects base 1, which `parse_digit` always refuses. So no
  binary literal with digits ever parses.

## Model

| member | source | states |
|---|---|---|
| `BoundedVec.Vec.constructor` | src/cmdline.rs:121 | `Vec::new()` is empty and has the requested capacity |
| `BoundedVec.Vec.Push` | src/byte_str.rs:28-33 | `push` succeeds exactly when the vector is not full; on success it appends the element, on failure it leaves the contents unchanged |
| `BoundedVec.Vec.Reverse` | src/byte_str.rs:39 | after the in-place reversal the contents are the old contents read back to front |
| `BoundedVec.Vec.Clear` | src/cmdline.rs:128 | `clear` leaves the vector empty and keeps its capacity |
| `ByteStr.DigitChar` | src/byte_str.rs:28-32 | a remainder below 10 becomes an ASCII digit, any other an upper-case letter, and the byte reads back as the remainder |
| `ByteStr.DigitsLsb` | src/byte_str.rs:25-38 | the loop pushes at least one digit, exactly one when `n < base`, and every digit is below the base |
| `ByteStr.Format` | src/byte_str.rs:25-39 | the reference numeral, most significant digit first, has at least one digit; the lemmas below give its meaning |
| `ByteStr.PushDigits` | src/byte_str.rs:25-38 | the digit loop pushes the digits least significant first; it succeeds exactly when all of them fit; otherwise the buffer holds the ones that fit |
| `ByteStr.ToString` | src/byte_str.rs:21-41 | fails with `Overrun` exactly when old contents plus digits exceed the capacity; on success the buffer is (old contents + digits) reversed; on failure it holds the digits pushed, unreversed |
| `ByteStr.ReversedDigitsAreNumeral` | src/byte_str.rs:25-39 | reversing the least-significant-first digits gives the numeral most significant digit first |
| `ByteStr.FormatIntoEmpty` | src/byte_str.rs:21-41 | formatting into an empty buffer leaves exactly the numeral of `n` |
| `ByteStr.FormatZero` | src/byte_str.rs:25-38 | the loop runs at least once, so 0 is written as `0` |
| `ByteStr.DigitCharValue` | src/byte_str.rs:28-32 | the byte written for a remainder reads back as that remainder; it is never `_`; it is `0` only for remainder 0 |
| `ByteStr.FormatDigitsInBase` | src/byte_str.rs:25-38 | every byte of a numeral is a digit whose value is below the base |
| `ByteStr.FormatLeadingDigit` | src/byte_str.rs:25-38 | a numeral starts with `0` exactly when the value is 0 (no leading zeros) |
| `ByteStr.FormatLength` | src/byte_str.rs:25-38 | the numeral of `n` has at most `k` digits exactly when `n < base^k` |
| `ByteStr.FormatFits` | src/cmdline.rs:78-79 | the buffers of 2, 8 and 3 bytes hold every `u8` in hex, every `u32` in hex and every `u8` in decimal, so the `unwrap` calls never fail |
| `ByteStr.ParseDigit` | src/byte_str.rs:76-94 | a base outside `[2, 36)` gives `BadBase`; otherwise an overflowing `n * base` gives `Overflow` whatever the byte; otherwise `_` keeps `n`, a digit below the base gives the checked `n * base + digit`, and any other byte gives `BadDigit(byte)`; a result is never below `n` |
| `ByteStr.Fold` | src/byte_str.rs:98-111 | the empty input gives the start value; a result is never below the start value; a `BadDigit` names a byte of the input; a `BadBase` names the base given, which is outside `[2, 36)` |
| `ByteStr.ParseNum` | src/byte_str.rs:96-113 | a `BadDigit` names a byte of the input; a `BadBase` only comes from a `0b`/`0B` prefix, and names base 1 |
| `ByteStr.FoldBadBase` | src/byte_str.rs:78-80 | with a bad base, any non-empty input fails with `BadBase` at its first byte |
| `ByteStr.FoldAppend` | src/byte_str.rs:98-111 | the fold over `s + t` continues the fold over `s` from its result, and the first error is final |
| `ByteStr.FoldFormat` | src/byte_str.rs:96-113 | folding the numeral of `v` in its own base (2 to 35) gives back `v` |
| `ByteStr.ParseNumCases` | src/byte_str.rs:96-113 | `0x`/`0X` selects base 16, `0o` base 8 and `0b`/`0B` base 1, each after skipping 2 bytes; any other input is read whole in base 10 |
| `ByteStr.DecimalHasNoPrefix` | src/byte_str.rs:97-109 | a decimal numeral, followed by anything that does not start with a prefix letter, is never taken for a prefixed one |
| `ByteStr.DecimalRoundTrip` | src/byte_str.rs:109-112 | parsing the decimal numeral of `v` gives back `v` |
| `ByteStr.HexRoundTrip` | src/byte_str.rs:97-100 | parsing `0x` followed by the hex numeral of `v` gives back `v` |
| `ByteStr.ParseNumEmptyIsZero` | src/byte_str.rs:96-113 | the empty input, and each of the five prefixes `0x`, `0X`, `0o`, `0b`, `0B` on its own, parse as 0 |
| `ByteStr.BinaryPrefixRefused` | src/byte_str.rs:105-108 | any `0b`/`0B` input with at least one byte after the prefix fails with `BadBase(1)` |
| `ByteStr.TrailingSeparator` | src/byte_str.rs:81-90 | a trailing `_` after the decimal numeral of `v` is ignored when `v * 10` fits in `usize`, and gives `Overflow` otherwise |
| `ByteStr.ParseDigitCaseInsensitive` | src/byte_str.rs:82-87 | a lower-case letter and its upper-case form are both accepted, or both refused, and give the same value |
| `ByteStr.ParseU8` | src/byte_str.rs:115-121 | succeeds exactly when `parse_num` succeeds with a value below 256, and then returns that value; otherwise it returns `parse_num`'s error, or `Overflow` when the value is too large |
| `ByteStr.ParseU16` | src/byte_str.rs:123-129 | the same for values below 65536 |
| `ByteStr.ParseU32` | src/byte_str.rs:131-137 | fails exactly when `parse_num` fails, with the same error; on success it returns the same value |
| `ByteStr.ParseUsize` | src/byte_str.rs:139-145 | `usize::parse` is `parse_num` with no narrowing at all |
| `ByteStr.ParseU32NeverNarrows` | src/byte_str.rs:131-137 | on a 32-bit target the `u32` narrowing never fails; `u32::parse` is `parse_num` |
| `Cmdline.Split` | src/cmdline.rs:152-153 | `split` yields at least one piece, even for the empty line, and no piece holds a whitespace byte |
| `Cmdline.NonEmpty` | src/cmdline.rs:154 | the filter keeps only non-empty pieces, each one of the input's pieces, and never more than there were |
| `Cmdline.Tokenize` | src/cmdline.rs:152-155 | every token is non-empty and free of whitespace |
| `Cmdline.RunLength` | src/cmdline.rs:152-153 | the run at the front of a slice contains no whitespace and is ended by whitespace or by the end of input |
| `Cmdline.NonEmptyAppend` | src/cmdline.rs:154 | removing empty pieces distributes over concatenation |
| `Cmdline.TokenizeIsWords` | src/cmdline.rs:152-155 | split-then-filter yields exactly the maximal runs of non-whitespace bytes, in order |
| `Cmdline.WordsWellFormed` | src/cmdline.rs:152-155 | no token is empty, and no token contains a whitespace byte |
| `Cmdline.WordsJoin` | src/cmdline.rs:152-155 | the tokens joined together are the line's non-whitespace bytes in order, so nothing is lost or added |
| `Cmdline.TokenizeEmptyIff` | src/cmdline.rs:152-159 | a line has no tokens exactly when every byte of it is whitespace |
| `Cmdline.RestArgs` | src/cmdline.rs:13-30 | never pushes more values than there are arguments, or than there is room |
| `Cmdline.RestArgsOutcome` | src/cmdline.rs:21-29 | the loop ends with every value pushed (`Ok`), or with exactly `room` values pushed (`TooManyArgs`), or with a `BadArg` numbered `arg_index` plus the count of values pushed before it |
| `Cmdline.RestArgsAllParse` | src/cmdline.rs:21-29 | when every argument parses, the values are pushed in order; the result is `TooManyArgs` exactly when they exceed the room, and `Ok` otherwise |
| `Cmdline.RestArgsFirstError` | src/cmdline.rs:21-28 | the first argument to fail, number `j` of the slice, gives `BadArg(arg_index + j, err)` unless the buffer filled up before it; the values before it are pushed |
| `Cmdline.RestArgsFit` | src/cmdline.rs:24 | with room for every argument, `TooManyArgs` never occurs |
| `Cmdline.ParseRestArgs` | src/cmdline.rs:13-30 | the loop returns what `RestArgs` specifies, and the buffer ends as its old contents plus the values `RestArgs` pushes |
| `Cmdline.CommandOf` | src/cmdline.rs:90-146 | every command name is 1 to 7 lower-case letters |
| `Cmdline.ParseCommand` | src/cmdline.rs:86-149 | `UnknownCommand` exactly for an unknown name; `NotEnoughArgs` exactly for `r` alone or `w` with fewer than two arguments; every `BadArg` number points at a token; a parsed request is of the kind the name selects, with one byte per argument of `c` and one word per data argument of `w` |
| `Cmdline.CommandNamesAreLowercase` | src/cmdline.rs:90-146 | names are matched case-sensitively: a token containing an upper-case letter is an unknown command |
| `Cmdline.FlashCmd` | src/cmdline.rs:35-72 | `flash_cmd` replaces each byte of the command with the byte the chip returns after everything sent so far; the length is unchanged |
| `Cmdline.Loaded` | src/cmdline.rs:123-125 | `r` reads `count` words, word `k` from `start + 4k` |
| `Cmdline.Stored` | src/cmdline.rs:140-143 | the stores define a word exactly at the old addresses and at the `n` word addresses from `start` on |
| `Cmdline.EchoText` | src/cmdline.rs:76-83 | the echo of `c` ends with a line end |
| `Cmdline.EchoTextLength` | src/cmdline.rs:76-83 | the echo takes 2 or 3 bytes per returned byte, plus 5, because the hex is unpadded |
| `Cmdline.ReadText` | src/cmdline.rs:122-130 | the output of `r` ends with a line end |
| `Cmdline.ReadTextLength` | src/cmdline.rs:122-130 | the output of `r` takes 4 to 11 bytes per word, plus 4 |
| `Cmdline.Execute` | src/cmdline.rs:90-145 | only a boot request resets, and it writes nothing; every other request ends its output with a line end; only a write request changes memory |
| `Cmdline.Dispatch` | src/cmdline.rs:86-149 | fails exactly when parsing fails, with the same error; on success the chip resets exactly for `b`, every other command's output ends with a line end, and memory changes only for `w` |
| `Cmdline.ErrorText` | src/cmdline.rs:162-194 | every diagnostic ends with a line end |
| `Cmdline.Respond` | src/cmdline.rs:151-195 | a line that resets writes nothing and leaves memory alone; any other line's response ends with a line end |
| `Cmdline.BlankLineWritesNewline` | src/cmdline.rs:156-159 | a line that is only whitespace writes `\r\n` and changes nothing else |
| `Cmdline.ReadArity` | src/cmdline.rs:108-120 | `r` with no argument gives `NotEnoughArgs`, and with more than 2 gives `TooManyArgs`, before anything is parsed; a bad address is `BadArg(1, _)`; a bad word count is `BadArg(2, _)` |
| `Cmdline.ReadRequestParsed` | src/cmdline.rs:115-120 | `r ADDR` reads one word and `r ADDR WORDS` reads `WORDS` words, both from the parsed address |
| `Cmdline.WriteArity` | src/cmdline.rs:134-137 | `w` with fewer than two arguments gives `NotEnoughArgs`; a bad address is `BadArg(1, _)` |
| `Cmdline.WriteRequestParsed` | src/cmdline.rs:137-139 | a `w` line whose arguments all parse stores each parsed word, in order, from the parsed address |
| `Cmdline.WriteDataIndex` | src/cmdline.rs:137-139 | `w` numbers its data words from 2, so the first one that fails to parse, at token `j`, gives `BadArg(j, err)` |
| `Cmdline.StoredWords` | src/cmdline.rs:140-143 | after the stores, word `k` is at `start + 4k` and every other address keeps its old value |
| `Cmdline.CmdByteOverflow` | src/cmdline.rs:103-105 | `c` numbers its bytes from 1, so a first out-of-range byte at token `j` gives `BadArg(j, Overflow)` |
| `Cmdline.ListsNeverOverflow` | src/cmdline.rs:103-139 | within the token limit, the argument buffers of `c` and `w` never report `TooManyArgs` |
| `Cmdline.OnlyWriteStores` | src/cmdline.rs:86-149 | memory changes only on a `w` line; a command that fails only writes its diagnostic |
| `Cmdline.OnlyBootResets` | src/cmdline.rs:102 | the chip is reset exactly when the first token is `b` or `boot` |
| `Cmdline.ReadShowsEachWord` | src/cmdline.rs:121-130 | in the output of `r`, word `k` appears as `" 0x"` and its unpadded hex, between the words before and after it, and the hex reads back as that word |
| `Cmdline.EchoShowsEachByte` | src/cmdline.rs:76-83 | in the echo of `c`, each returned byte appears as a space and its unpadded hex, between its neighbours, and the hex reads back as that byte |
| `Cmdline.EchoIsUnpadded` | src/cmdline.rs:78-81 | a returned byte below 16 is echoed as one digit, with no zero padding |
| `Cmdline.ErrorTextNumbersArgument` | src/cmdline.rs:175-190 | bad-digit and overflow diagnostics carry the argument number as a `u8` in decimal, which reads back as that number; the overflow number has 1 to 3 digits; the bad-digit diagnostic also quotes the offending byte |
| `Cmdline.BadBaseHasNoIndex` | src/cmdline.rs:191-193 | a bad-base diagnostic is the same whatever the argument number, the base and the line |
| `Cmdline.UnknownEchoesLine` | src/cmdline.rs:164-168 | an unknown command echoes the whole raw line, whitespace included, in quotes, and changes nothing else |
| `Cmdline.Console.constructor` | src/cmdline.rs:151 | a fresh console has written nothing, holds the given memory and has not reset |
| `Cmdline.Console.Send` | src/cmdline.rs:76 | `serial.write` appends the bytes to the output and changes nothing else |
| `Cmdline.Console.SendNumber` | src/cmdline.rs:78-81 | formatting into an empty buffer that has room succeeds; the buffer, and then the output, receive exactly the numeral |
| `Cmdline.Console.ExecCmd` | src/cmdline.rs:74-84 | the output grows by `" ->"`, then a space and the hex of each byte the chip returned, then `\r\n` |
| `Cmdline.Console.ReadWords` | src/cmdline.rs:121-130 | the output grows by `\r\n`, then `" 0x"` and the hex of each word read, then `\r\n`; memory is unchanged |
| `Cmdline.Console.WriteWords` | src/cmdline.rs:140-143 | memory becomes the old memory with the words stored from `start` on; the output is unchanged |
| `Cmdline.Console.FlashArm` | src/cmdline.rs:103-107 | the `c` arm has the effect `Dispatch` specifies; on an error nothing is written |
| `Cmdline.Console.ReadArm` | src/cmdline.rs:108-131 | the `r` arm has the effect `Dispatch` specifies; on an error nothing is written |
| `Cmdline.Console.WriteArm` | src/cmdline.rs:132-145 | the `w` arm has the effect `Dispatch` specifies; on an error nothing is written or stored |
| `Cmdline.Console.ParseWithError` | src/cmdline.rs:86-149 | returns the error `Dispatch` finds, with no other effect; otherwise returns `Ok` with exactly the output, memory and reset that `Dispatch` specifies |
| `Cmdline.Console.SendArgNumber` | src/cmdline.rs:176-179 | the argument number is truncated to `u8` and written in decimal |
| `Cmdline.Console.ReportError` | src/cmdline.rs:162-194 | the output grows by exactly the diagnostic for the error |
| `Cmdline.Console.Parse` | src/cmdline.rs:151-195 | on a console that has not reset, output, memory and reset flag become what `Respond` specifies for the line: tokenize, dispatch, then report any error |

## Left out

- `src/main.rs` is not part of this model: it only installs the vector table and halts. The USB serial driver and the line input that call `parse` are outside the modelled core.
- `reset_to_usb_boot` is only the `booted` flag of `Console`. It never returns, so `Cmdline.Console.Parse` requires a console that has not reset; lines after a reset stand for no real behaviour.
- `flash_cmd`'s register-level protocol is not modelled: XIP exit and entry, chip-select, and the FIFO busy-waits. The chip is a function that gives the byte returned after each prefix of the bytes sent. This model keeps the length and the order of the response, nothing more.
- Write errors on the serial port are ignored by the source (`let _ =`), so the port is an infallible append-only byte sequence. USB buffering and partial writes are not modelled.
- Raw pointer reads and writes become a word map. Unwritten words read as 0. Alignment faults, bus faults, peripheral side effects and memory-mapped I/O are not modelled.
- Concurrency and interrupts are not modelled: `flash_cmd` must only be called from one place.
- `Cmdline.Console.Parse`: requires `Accepted`, that is, at most `numArgs` tokens and an address iterator that does not overflow. In the source, more tokens make `collect` panic, and an overflowing `(start..).step_by(4)` panics where overflow checks are on. These panics are excluded rather than modelled. Where overflow checks are off, the addresses would wrap instead; that is not modelled either.
- `Cmdline.Console.ParseWithError`: requires `InRange` for the same reason.
- `Cmdline.Console.ReadWords`: requires `start + 4 * count <= 2^32 + 2`. Each draw from the iterator yields `start + 4k` and leaves `start + 4k + 1` behind, and `take(count)` draws `count` times. So the bound is exactly where the last draw no longer overflows.
- `Cmdline.Console.WriteWords`: requires `start + 4 * |words| <= 2^32 - 2`. `zip` draws one more address after the last word, and the bound is exactly where that draw no longer overflows. At the edge the source panics after the last store and writes no line end.
- `ByteStr.ToString`: requires a base from 2 to 36. The source's `BASE` is a compile-time constant, and only 10 and 16 are used. Base 0 would divide by zero. With base 1, `n` never reaches 0 unless it was 0, so the loop pushes `0` until the buffer is full and returns `Overrun`. Bases above 36 would write non-alphanumeric bytes.
- `Cmdline.ParseRestArgs`: is generic over a parse function rather than over the `ParseByteStr` trait. The model instantiates it with `ParseU8` and `ParseU32`, as the source does.
- `BoundedVec.Vec`: holds its elements in a sequence field that its methods reassign, rather than in an array (`heapless::Vec`'s storage). The in-place swap loop of `reverse` is kept.
- Argument numbers in `ParseArgErr::BadArg` are naturals, not `usize`. Only their `u8` truncation is ever printed, and it is modelled.
- The `u8`/`u32` `to_string` impls only widen to `usize`, so they are the one `ToString` method.
