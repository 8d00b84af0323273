/**
 * The numeric codec: unsigned integers to and from ASCII bytes, written into
 * fixed-capacity buffers and parsed with checked arithmetic. `usize` is 32
 * bits wide on the target, so every accumulator is bounded by USIZE_MAX.
 */
module ByteStr {
  import opened Wrappers
  import opened BoundedVec

  type Byte = x: int | 0 <= x < 0x100
  type U16 = x: int | 0 <= x < 0x1_0000
  type U32 = x: int | 0 <= x < 0x1_0000_0000

  const USIZE_MAX: int := 0xFFFF_FFFF
  type Usize = x: int | 0 <= x <= USIZE_MAX

  /** The bytes of an ASCII string literal. */
  function Ascii(s: string): (b: seq<Byte>)
    ensures |b| == |s|
    ensures forall i :: 0 <= i < |s| ==> b[i] == s[i] as int % 0x100
  {
    seq(|s|, i requires 0 <= i < |s| => s[i] as int % 0x100)
  }

  datatype FormatNumErr = Overrun

  datatype ParseNumErr =
    | Overflow
    | BadDigit(chr: Byte)
    | BadBase(base: Byte)

  // ---------------------------------------------------------------------
  // Formatting
  // ---------------------------------------------------------------------

  /** The ASCII digit for a remainder: `'0'..'9'`, then `'A'..'Z'`. */
  function DigitChar(r: nat): (c: Byte)
    requires r < 36
    ensures r < 10 ==> IsAsciiDigit(c)
    ensures r >= 10 ==> IsAsciiUppercase(c)
    ensures DigitValue(c) == r
  {
    if r < 10 then '0' as int + r else 'A' as int - 10 + r
  }

  /** The digits of `n` in base `base`, least significant first, as the loop pushes them. */
  function DigitsLsb(n: nat, base: nat): (d: seq<Byte>)
    requires 2 <= base <= 36
    ensures |d| >= 1
    ensures |d| == 1 <==> n < base
    ensures forall i :: 0 <= i < |d| ==> DigitValue(d[i]) < base
    decreases n
  {
    DivStep(n, base);
    [DigitChar(n % base)] + if n < base then [] else DigitsLsb(n / base, base)
  }

  /** The base-`base` numeral of `n`, most significant digit first. */
  function Format(n: nat, base: nat): (d: seq<Byte>)
    requires 2 <= base <= 36
    ensures |d| >= 1
    decreases n
  {
    DivStep(n, base);
    (if n < base then [] else Format(n / base, base)) + [DigitChar(n % base)]
  }

  function Pow(b: nat, k: nat): nat
  {
    if k == 0 then 1 else b * Pow(b, k - 1)
  }

  /**
   * `to_string`: pushes the digits of `n` into `buf`, least significant
   * first, and then reverses the whole of `buf`. A push into a full buffer
   * stops the loop with `Overrun`, leaving the digits pushed so far and no
   * reversal. The `u8` and `u32` impls call it with their value widened to
   * `usize`.
   */
  method ToString(n: Usize, base: nat, buf: Vec<Byte>) returns (r: Result<(), FormatNumErr>)
    requires buf.Valid() && 2 <= base <= 36
    modifies buf
    ensures buf.Valid()
    ensures r.Err? <==> |old(buf.Contents())| + |DigitsLsb(n, base)| > buf.Capacity()
    ensures r.Ok? ==> buf.Contents() == Reversed(old(buf.Contents()) + DigitsLsb(n, base))
    ensures r.Err? ==> buf.Contents() == (old(buf.Contents()) + DigitsLsb(n, base))[..buf.Capacity()]
  {
    var ok := PushDigits(n, base, buf);
    if !ok {
      return Err(Overrun);
    }
    buf.Reverse();
    return Ok(());
  }

  /** The loop of `to_string`: pushes the digits of `n`, least significant first, until one does not fit. */
  method PushDigits(n: Usize, base: nat, buf: Vec<Byte>) returns (ok: bool)
    requires buf.Valid() && 2 <= base <= 36
    modifies buf
    ensures buf.Valid()
    ensures ok <==> |old(buf.Contents())| + |DigitsLsb(n, base)| <= buf.Capacity()
    ensures ok ==> buf.Contents() == old(buf.Contents()) + DigitsLsb(n, base)
    ensures !ok ==> buf.Contents() == (old(buf.Contents()) + DigitsLsb(n, base))[..buf.Capacity()]
  {
    ghost var all := buf.Contents() + DigitsLsb(n, base);
    var m: nat := n;
    while true
      invariant buf.Valid()
      invariant |buf.Contents()| < |all| && buf.Contents() == all[..|buf.Contents()|]
      invariant DigitsLsb(m, base) == all[|buf.Contents()|..]
      decreases m
    {
      var div := m / base;
      var rem := m % base;
      PushStep(buf.Contents(), all, m, base);
      ok := buf.Push(if rem < 10 then '0' as int + rem else 'A' as int - 10 + rem);
      if !ok {
        return;
      }
      m := div;
      if m == 0 {
        return;
      }
    }
  }

  /** What one turn of the formatting loop adds to the digits pushed so far. */
  lemma PushStep(pushed: seq<Byte>, all: seq<Byte>, m: nat, base: nat)
    requires 2 <= base <= 36
    requires |pushed| < |all| && pushed == all[..|pushed|] && DigitsLsb(m, base) == all[|pushed|..]
    ensures m % base < 36
    ensures pushed + [DigitChar(m % base)] == all[..|pushed| + 1]
    ensures m / base == 0 ==> pushed + [DigitChar(m % base)] == all
    ensures m / base != 0 ==> m / base < m && |pushed| + 1 < |all| && DigitsLsb(m / base, base) == all[|pushed| + 1..]
  {
    LsbStep(m, base);
    assert all[|pushed|] == DigitChar(m % base);
    assert all[..|pushed| + 1] == all[..|pushed|] + [all[|pushed|]];
    if m / base == 0 {
      assert |all| == |pushed| + 1;
    } else {
      assert all[|pushed| + 1..] == all[|pushed|..][1..];
    }
  }

  /** One turn of the formatting loop: the digit of `m % base`, then those of `m / base` unless it is 0. */
  lemma LsbStep(m: nat, base: nat)
    requires 2 <= base <= 36
    ensures m % base < 36
    ensures DigitsLsb(m, base) == [DigitChar(m % base)] + if m / base == 0 then [] else DigitsLsb(m / base, base)
    ensures m / base != 0 ==> m / base < m
  {
    DivStep(m, base);
  }

  lemma DivStep(m: nat, base: nat)
    requires 2 <= base <= 36
    ensures m % base < 36
    ensures m / base == 0 <==> m < base
    ensures m / base != 0 ==> m / base < m
  {
  }

  // ---------------------------------------------------------------------
  // Parsing
  // ---------------------------------------------------------------------

  predicate IsAsciiDigit(c: Byte) { '0' as int <= c <= '9' as int }
  predicate IsAsciiLowercase(c: Byte) { 'a' as int <= c <= 'z' as int }
  predicate IsAsciiUppercase(c: Byte) { 'A' as int <= c <= 'Z' as int }

  const UNDERSCORE: Byte := '_' as int

  /**
   * The value of an alphanumeric byte as a base-36 digit, letters in either
   * case; 36 for every other byte.
   */
  function DigitValue(c: Byte): (v: nat)
    ensures v <= 36
  {
    if '0' as int <= c <= '9' as int then c - '0' as int
    else if 'a' as int <= c <= 'z' as int then c - 'a' as int + 10
    else if 'A' as int <= c <= 'Z' as int then c - 'A' as int + 10
    else 36
  }

  function CheckedAdd(a: nat, b: nat): Result<Usize, ParseNumErr>
  {
    if a + b <= USIZE_MAX then Ok(a + b) else Err(Overflow)
  }

  /**
   * `parse_digit`: one step of the left-to-right fold. The base is checked
   * first, then `n * base` is checked for overflow, and only then is the
   * byte classified.
   */
  function ParseDigit(n: Usize, chr: Byte, base: Byte): (r: Result<Usize, ParseNumErr>)
    ensures !(2 <= base < 36) ==> r == Err(BadBase(base))
    ensures 2 <= base < 36 && n * base > USIZE_MAX ==> r == Err(Overflow)
    ensures 2 <= base < 36 && n * base <= USIZE_MAX && chr == UNDERSCORE ==> r == Ok(n)
    ensures 2 <= base < 36 && n * base <= USIZE_MAX && DigitValue(chr) < base ==>
              r == (if n * base + DigitValue(chr) <= USIZE_MAX then Ok(n * base + DigitValue(chr)) else Err(Overflow))
    ensures 2 <= base < 36 && n * base <= USIZE_MAX && chr != UNDERSCORE && DigitValue(chr) >= base ==>
              r == Err(BadDigit(chr))
    ensures r.Ok? ==> n <= r.value
    ensures r.Err? && r.error.BadDigit? ==> r.error.chr == chr
    ensures r.Err? && r.error.BadBase? ==> r.error.base == base && !(2 <= base < 36)
  {
    if !(2 <= base < 36) then Err(BadBase(base))
    else if n * base > USIZE_MAX then Err(Overflow)
    else
      var m := n * base;
      MulGrows(n, base);
      if IsAsciiDigit(chr) && chr - '0' as int < base then CheckedAdd(m, chr - '0' as int)
      else if IsAsciiLowercase(chr) && chr + 10 - 'a' as int < base then CheckedAdd(m, chr + 10 - 'a' as int)
      else if IsAsciiUppercase(chr) && chr + 10 - 'A' as int < base then CheckedAdd(m, chr + 10 - 'A' as int)
      else if chr == UNDERSCORE then Ok(n)
      else Err(BadDigit(chr))
  }

  lemma MulGrows(n: nat, base: nat)
    requires base >= 1
    ensures n <= n * base
  {
  }

  /** `try_fold` of `parse_digit` over `s`, starting from `acc`; the first error stops it. */
  function Fold(acc: Usize, s: seq<Byte>, base: Byte): (r: Result<Usize, ParseNumErr>)
    ensures s == [] ==> r == Ok(acc)
    ensures r.Ok? ==> acc <= r.value
    ensures r.Err? && r.error.BadDigit? ==> r.error.chr in s
    ensures r.Err? && r.error.BadBase? ==> r.error.base == base && !(2 <= base < 36)
    decreases |s|
  {
    if s == [] then Ok(acc)
    else
      match ParseDigit(acc, s[0], base)
      case Ok(a) => Fold(a, s[1..], base)
      case Err(e) => Err(e)
  }

  /** `starts_with` on two bytes: `0` followed by `letter`. */
  predicate StartsWith(buf: seq<Byte>, letter: char)
  {
    2 <= |buf| && buf[0] == '0' as int && buf[1] == letter as int
  }

  /** The second bytes of the prefixes `parse_num` looks for. */
  predicate IsPrefixLetter(c: Byte)
  {
    c == 'x' as int || c == 'X' as int || c == 'o' as int || c == 'b' as int || c == 'B' as int
  }

  /**
   * `parse_num`: an optional prefix picks the base (`0x`/`0X` 16, `0o` 8,
   * `0b`/`0B` base 1, which `parse_digit` always refuses); without one the
   * whole buffer is read in base 10.
   */
  function ParseNum(buf: seq<Byte>): (r: Result<Usize, ParseNumErr>)
    ensures r.Err? && r.error.BadDigit? ==> r.error.chr in buf
    ensures r.Err? && r.error.BadBase? ==> r.error.base == 1 && (StartsWith(buf, 'b') || StartsWith(buf, 'B'))
  {
    if StartsWith(buf, 'x') || StartsWith(buf, 'X') then Fold(0, buf[2..], 16)
    else if StartsWith(buf, 'o') then Fold(0, buf[2..], 8)
    else if StartsWith(buf, 'b') || StartsWith(buf, 'B') then Fold(0, buf[2..], 1)
    else Fold(0, buf, 10)
  }

  /** `u8::parse`: `parse_num` narrowed with `try_into`. */
  function ParseU8(buf: seq<Byte>): (r: Result<Byte, ParseNumErr>)
    ensures r.Ok? <==> ParseNum(buf).Ok? && ParseNum(buf).value < 0x100
    ensures r.Ok? ==> r.value == ParseNum(buf).value
    ensures r.Err? ==> r.error == if ParseNum(buf).Err? then ParseNum(buf).error else Overflow
  {
    match ParseNum(buf)
    case Ok(v) => if v < 0x100 then Ok(v) else Err(Overflow)
    case Err(e) => Err(e)
  }

  /** `u16::parse`: `parse_num` narrowed with `try_into`. */
  function ParseU16(buf: seq<Byte>): (r: Result<U16, ParseNumErr>)
    ensures r.Ok? <==> ParseNum(buf).Ok? && ParseNum(buf).value < 0x1_0000
    ensures r.Ok? ==> r.value == ParseNum(buf).value
    ensures r.Err? ==> r.error == if ParseNum(buf).Err? then ParseNum(buf).error else Overflow
  {
    match ParseNum(buf)
    case Ok(v) => if v < 0x1_0000 then Ok(v) else Err(Overflow)
    case Err(e) => Err(e)
  }

  /**
   * `u32::parse`: `parse_num` narrowed with `try_into`. As `usize` is 32 bits
   * wide on the target, the conversion never fails.
   */
  function ParseU32(buf: seq<Byte>): (r: Result<U32, ParseNumErr>)
    ensures r.Err? <==> ParseNum(buf).Err?
    ensures r.Err? ==> r.error == ParseNum(buf).error
    ensures r.Ok? ==> r.value == ParseNum(buf).value
  {
    match ParseNum(buf)
    case Ok(v) => Ok(v)
    case Err(e) => Err(e)
  }

  /** `usize::parse`: `parse_num` itself. */
  function ParseUsize(buf: seq<Byte>): (r: Result<Usize, ParseNumErr>)
    ensures r == ParseNum(buf)
  {
    ParseNum(buf)
  }

  // ---------------------------------------------------------------------
  // Properties of the formatter
  // ---------------------------------------------------------------------

  /** Reversing the pushed digits gives the numeral most significant digit first. */
  lemma {:induction false} ReversedDigitsAreNumeral(n: nat, base: nat)
    requires 2 <= base <= 36
    ensures Reversed(DigitsLsb(n, base)) == Format(n, base)
    decreases n
  {
    DivStep(n, base);
    var d := DigitChar(n % base);
    if n < base {
      assert DigitsLsb(n, base) == [d] == Format(n, base);
    } else {
      var q := n / base;
      assert DigitsLsb(n, base) == [d] + DigitsLsb(q, base);
      assert Format(n, base) == Format(q, base) + [d];
      ReversedCons(d, DigitsLsb(q, base));
      ReversedDigitsAreNumeral(q, base);
    }
  }

  /** Formatting into an empty buffer leaves exactly the numeral of `n` there. */
  lemma FormatIntoEmpty(n: nat, base: nat)
    requires 2 <= base <= 36
    ensures Reversed([] + DigitsLsb(n, base)) == Format(n, base)
    ensures |DigitsLsb(n, base)| == |Format(n, base)|
  {
    assert [] + DigitsLsb(n, base) == DigitsLsb(n, base);
    ReversedDigitsAreNumeral(n, base);
  }

  /** Zero is written as the single digit `0`. */
  lemma FormatZero(base: nat)
    requires 2 <= base <= 36
    ensures Format(0, base) == ['0' as int]
  {
  }

  lemma DigitCharValue(r: nat)
    requires r < 36
    ensures DigitValue(DigitChar(r)) == r
    ensures DigitChar(r) != UNDERSCORE
    ensures DigitChar(r) == '0' as int <==> r == 0
  {
  }

  /** Every byte of a numeral is a digit whose value is below the base. */
  lemma {:induction false} FormatDigitsInBase(n: nat, base: nat)
    requires 2 <= base <= 36
    ensures forall i :: 0 <= i < |Format(n, base)| ==> DigitValue(Format(n, base)[i]) < base
    decreases n
  {
    DivStep(n, base);
    DigitCharValue(n % base);
    if n >= base {
      FormatDigitsInBase(n / base, base);
    }
  }

  /** A numeral has a leading `0` only when it is the numeral of 0. */
  lemma {:induction false} FormatLeadingDigit(n: nat, base: nat)
    requires 2 <= base <= 36
    ensures Format(n, base)[0] == '0' as int <==> n == 0
    decreases n
  {
    DivStep(n, base);
    DigitCharValue(n % base);
    if n >= base {
      FormatLeadingDigit(n / base, base);
    }
  }

  lemma PowAtLeastBase(b: nat, k: nat)
    requires b >= 1 && k >= 1
    ensures Pow(b, k) >= b
  {
  }

  lemma QuotientBelow(n: nat, b: nat, p: nat)
    requires b >= 2
    ensures n / b < p <==> n < p * b
  {
    var q, r := n / b, n % b;
    assert n == q * b + r && 0 <= r < b;
    if q < p {
      assert q * b <= (p - 1) * b;
    } else {
      assert q * b >= p * b;
    }
  }

  /** The numeral of `n` has at most `k` digits exactly when `n < base^k`. */
  lemma {:induction false} FormatLength(n: nat, base: nat, k: nat)
    requires 2 <= base <= 36 && k >= 1
    ensures |Format(n, base)| <= k <==> n < Pow(base, k)
    decreases n
  {
    DivStep(n, base);
    PowAtLeastBase(base, k);
    if n >= base {
      if k >= 2 {
        FormatLength(n / base, base, k - 1);
        QuotientBelow(n, base, Pow(base, k - 1));
      }
    }
  }

  /** A `u8` in base 16 needs at most 2 bytes, a `u32` in base 16 at most 8, a `u8` in base 10 at most 3. */
  lemma FormatFits(n: nat)
    ensures n < 0x100 ==> |Format(n, 16)| <= 2
    ensures n < 0x1_0000_0000 ==> |Format(n, 16)| <= 8
    ensures n < 0x100 ==> |Format(n, 10)| <= 3
  {
    assert Pow(16, 2) == 0x100;
    assert Pow(16, 8) == 0x1_0000_0000;
    assert Pow(10, 3) == 1000;
    FormatLength(n, 16, 2);
    FormatLength(n, 16, 8);
    FormatLength(n, 10, 3);
  }

  // ---------------------------------------------------------------------
  // Properties of the parser
  // ---------------------------------------------------------------------

  /** The fold over `s + t` is the fold over `s`, continued over `t` from its result; an error in `s` is final. */
  lemma {:induction false} FoldAppend(acc: Usize, s: seq<Byte>, t: seq<Byte>, base: Byte)
    ensures Fold(acc, s + t, base) ==
              match Fold(acc, s, base)
              case Ok(a) => Fold(a, t, base)
              case Err(e) => Err(e)
    decreases |s|
  {
    if s == [] {
      assert s + t == t;
    } else {
      assert (s + t)[0] == s[0] && (s + t)[1..] == s[1..] + t;
      match ParseDigit(acc, s[0], base)
      case Ok(a) => FoldAppend(a, s[1..], t, base);
      case Err(_) =>
    }
  }

  /** A base outside `[2, 36)` is refused at the first byte, whatever the bytes are. */
  lemma FoldBadBase(acc: Usize, s: seq<Byte>, base: Byte)
    requires !(2 <= base < 36) && s != []
    ensures Fold(acc, s, base) == Err(BadBase(base))
  {
  }

  /** Folding over a single byte is one `parse_digit` step. */
  lemma FoldOne(acc: Usize, c: Byte, base: Byte)
    ensures Fold(acc, [c], base) == ParseDigit(acc, c, base)
  {
    assert [c][1..] == [];
  }

  /** Parsing the numeral of `v` in its own base gives back `v`. */
  lemma {:induction false} FoldFormat(v: Usize, base: nat)
    requires 2 <= base < 36
    ensures Fold(0, Format(v, base), base) == Ok(v)
    decreases v
  {
    DivStep(v, base);
    var r := v % base;
    DigitCharValue(r);
    var d := DigitChar(r);
    if v < base {
      assert Format(v, base) == [d];
      FoldOne(0, d, base);
    } else {
      var q := v / base;
      assert q * base + r == v;
      assert Format(v, base) == Format(q, base) + [d];
      FoldFormat(q, base);
      FoldAppend(0, Format(q, base), [d], base);
      FoldOne(q, d, base);
    }
  }

  /** Which base `parse_num` reads the bytes in, and which bytes it reads. */
  lemma ParseNumCases(buf: seq<Byte>)
    ensures |buf| >= 2 && buf[0] == '0' as int && (buf[1] == 'x' as int || buf[1] == 'X' as int) ==>
              ParseNum(buf) == Fold(0, buf[2..], 16)
    ensures |buf| >= 2 && buf[0] == '0' as int && buf[1] == 'o' as int ==>
              ParseNum(buf) == Fold(0, buf[2..], 8)
    ensures |buf| >= 2 && buf[0] == '0' as int && (buf[1] == 'b' as int || buf[1] == 'B' as int) ==>
              ParseNum(buf) == Fold(0, buf[2..], 1)
    ensures !(|buf| >= 2 && buf[0] == '0' as int && IsPrefixLetter(buf[1])) ==>
              ParseNum(buf) == Fold(0, buf, 10)
  {
  }

  /** Round trip: a value formatted in base 10 parses back unchanged. */
  lemma DecimalRoundTrip(v: Usize)
    ensures ParseNum(Format(v, 10)) == Ok(v)
  {
    var f := Format(v, 10);
    DecimalHasNoPrefix(v, []);
    assert f + [] == f;
    ParseNumCases(f);
    FoldFormat(v, 10);
  }

  /** A decimal numeral, whatever follows it, never starts with a base prefix. */
  lemma DecimalHasNoPrefix(v: nat, tail: seq<Byte>)
    requires tail != [] ==> !IsPrefixLetter(tail[0])
    ensures var buf := Format(v, 10) + tail;
            !(|buf| >= 2 && buf[0] == '0' as int && IsPrefixLetter(buf[1]))
  {
  }

  /** Round trip: a value formatted in base 16, with `0x` in front, parses back unchanged. */
  lemma HexRoundTrip(v: Usize)
    ensures ParseNum(Ascii("0x") + Format(v, 16)) == Ok(v)
  {
    var buf := Ascii("0x") + Format(v, 16);
    assert buf[0] == '0' as int && buf[1] == 'x' as int;
    assert buf[2..] == Format(v, 16);
    ParseNumCases(buf);
    FoldFormat(v, 16);
  }

  /** The prefix alone, or nothing at all, reads as 0. */
  lemma ParseNumEmptyIsZero()
    ensures ParseNum([]) == Ok(0)
    ensures ParseNum(Ascii("0x")) == Ok(0)
    ensures ParseNum(Ascii("0o")) == Ok(0)
    ensures ParseNum(Ascii("0b")) == Ok(0)
    ensures ParseNum(Ascii("0X")) == Ok(0)
    ensures ParseNum(Ascii("0B")) == Ok(0)
  {
  }

  /** A `0b` or `0B` prefix selects base 1, so anything after it is refused with `BadBase(1)`. */
  lemma BinaryPrefixRefused(buf: seq<Byte>)
    requires StartsWith(buf, 'b') || StartsWith(buf, 'B')
    requires |buf| > 2
    ensures ParseNum(buf) == Err(BadBase(1))
  {
  }

  /**
   * A trailing `_` is ignored only while `acc * 10` still fits: the multiply
   * is checked before the byte is looked at, so after a large enough value
   * the separator itself overflows.
   */
  lemma TrailingSeparator(v: Usize)
    ensures v * 10 <= USIZE_MAX ==> ParseNum(Format(v, 10) + [UNDERSCORE]) == Ok(v)
    ensures v * 10 > USIZE_MAX ==> ParseNum(Format(v, 10) + [UNDERSCORE]) == Err(Overflow)
  {
    var f := Format(v, 10);
    DecimalHasNoPrefix(v, [UNDERSCORE]);
    ParseNumCases(f + [UNDERSCORE]);
    FoldFormat(v, 10);
    FoldAppend(0, f, [UNDERSCORE], 10);
    FoldOne(v, UNDERSCORE, 10);
  }

  /** Letters are digits in either case (only a `BadDigit` error still names the byte as written). */
  lemma ParseDigitCaseInsensitive(n: Usize, chr: Byte, base: Byte)
    requires IsAsciiLowercase(chr)
    ensures ParseDigit(n, chr, base).Ok? <==> ParseDigit(n, chr - 32, base).Ok?
    ensures ParseDigit(n, chr, base).Ok? ==> ParseDigit(n, chr, base) == ParseDigit(n, chr - 32, base)
  {
  }

  /** On a 32-bit target `u32::parse` is `parse_num` itself: narrowing to 32 bits never overflows. */
  lemma ParseU32NeverNarrows(buf: seq<Byte>)
    ensures ParseU32(buf) == ParseNum(buf)
  {
  }
}
