/**
 * The command-line front end of the serial debug console: the tokenizer,
 * the positional argument parser, the dispatcher with its `h`, `b`, `c`,
 * `r` and `w` commands, and the diagnostics written for each error.
 *
 * The serial port is an output byte sequence that is only ever appended to,
 * target memory is a map of 32-bit words keyed by address, and the flash
 * chip is a device function giving the byte clocked back for each byte sent.
 */
module Cmdline {
  import opened Wrappers
  import opened BoundedVec
  import opened ByteStr

  datatype ParseArgErr =
    | BadArg(index: nat, err: ParseNumErr)   // argument `index` failed to parse because of `err`
    | NotEnoughArgs
    | TooManyArgs
    | UnknownCommand

  // ---------------------------------------------------------------------
  // The tokenizer
  // ---------------------------------------------------------------------

  /** `is_ascii_whitespace`: space, tab, line feed, form feed, carriage return (not vertical tab). */
  predicate IsWhitespace(c: Byte)
  {
    c == 32 || c == 9 || c == 10 || c == 12 || c == 13
  }

  /** The length of the run of non-whitespace bytes at the front of `s`. */
  function RunLength(s: seq<Byte>): (k: nat)
    ensures k <= |s|
    ensures forall i :: 0 <= i < k ==> !IsWhitespace(s[i])
    ensures k < |s| ==> IsWhitespace(s[k])
    decreases |s|
  {
    if s == [] || IsWhitespace(s[0]) then 0 else 1 + RunLength(s[1..])
  }

  /**
   * `split` on whitespace: the pieces between separators, empty ones
   * included, so that the empty line is one empty piece.
   */
  function Split(s: seq<Byte>): (pieces: seq<seq<Byte>>)
    ensures |pieces| >= 1
    ensures forall t, i :: 0 <= t < |pieces| && 0 <= i < |pieces[t]| ==> !IsWhitespace(pieces[t][i])
    decreases |s|
  {
    var k := RunLength(s);
    if k == |s| then [s] else [s[..k]] + Split(s[k + 1..])
  }

  /** `filter(|c| c != &[])`. */
  function NonEmpty(pieces: seq<seq<Byte>>): (kept: seq<seq<Byte>>)
    ensures |kept| <= |pieces|
    ensures forall t :: 0 <= t < |kept| ==> kept[t] != [] && kept[t] in pieces
  {
    if pieces == [] then []
    else (if pieces[0] == [] then [] else [pieces[0]]) + NonEmpty(pieces[1..])
  }

  /** The tokens of a command line, as `parse` collects them. */
  function Tokenize(line: seq<Byte>): (tokens: seq<seq<Byte>>)
    ensures forall t :: 0 <= t < |tokens| ==> tokens[t] != []
    ensures forall t, i :: 0 <= t < |tokens| && 0 <= i < |tokens[t]| ==> !IsWhitespace(tokens[t][i])
  {
    NonEmpty(Split(line))
  }

  /** Reference definition: the maximal runs of non-whitespace bytes of `s`, in order. */
  function Words(s: seq<Byte>): seq<seq<Byte>>
    decreases |s|
  {
    if s == [] then []
    else if IsWhitespace(s[0]) then Words(s[1..])
    else
      var k := RunLength(s);
      [s[..k]] + Words(s[k..])
  }

  /** The bytes of `s` that are not whitespace, in order. */
  function Strip(s: seq<Byte>): seq<Byte>
  {
    if s == [] then [] else (if IsWhitespace(s[0]) then [] else [s[0]]) + Strip(s[1..])
  }

  function Concat(ws: seq<seq<Byte>>): seq<Byte>
  {
    if ws == [] then [] else ws[0] + Concat(ws[1..])
  }

  /** `filter` distributes over concatenation. */
  lemma {:induction false} NonEmptyAppend(a: seq<seq<Byte>>, b: seq<seq<Byte>>)
    ensures NonEmpty(a + b) == NonEmpty(a) + NonEmpty(b)
    decreases |a|
  {
    if a == [] {
      assert a + b == b;
    } else {
      assert (a + b)[0] == a[0] && (a + b)[1..] == a[1..] + b;
      NonEmptyAppend(a[1..], b);
    }
  }

  /** The tokenizer yields exactly the maximal runs of non-whitespace bytes, in order. */
  lemma {:induction false} TokenizeIsWords(s: seq<Byte>)
    ensures Tokenize(s) == Words(s)
    decreases |s|
  {
    var k := RunLength(s);
    if s == [] {
    } else if IsWhitespace(s[0]) {
      assert Split(s) == [[]] + Split(s[1..]);
      NonEmptyAppend([[]], Split(s[1..]));
      TokenizeIsWords(s[1..]);
    } else if k == |s| {
      assert s[..k] == s && s[k..] == [] && [s][1..] == [];
      assert Split(s) == [s];
      assert NonEmpty([s]) == [s];
      assert Words(s) == [s[..k]] + Words(s[k..]);
    } else {
      assert Split(s) == [s[..k]] + Split(s[k + 1..]);
      NonEmptyAppend([s[..k]], Split(s[k + 1..]));
      TokenizeIsWords(s[k + 1..]);
      assert s[k..][0] == s[k] && s[k..][1..] == s[k + 1..];
    }
  }

  /** No token is empty, and no token holds a whitespace byte. */
  lemma {:induction false} WordsWellFormed(s: seq<Byte>)
    ensures forall t :: 0 <= t < |Words(s)| ==> Words(s)[t] != []
    ensures forall t, i :: 0 <= t < |Words(s)| && 0 <= i < |Words(s)[t]| ==> !IsWhitespace(Words(s)[t][i])
    decreases |s|
  {
    if s == [] {
    } else if IsWhitespace(s[0]) {
      WordsWellFormed(s[1..]);
    } else {
      var k := RunLength(s);
      WordsWellFormed(s[k..]);
      assert Words(s) == [s[..k]] + Words(s[k..]);
    }
  }

  lemma {:induction false} StripAppend(a: seq<Byte>, b: seq<Byte>)
    ensures Strip(a + b) == Strip(a) + Strip(b)
    decreases |a|
  {
    if a == [] {
      assert a + b == b;
    } else {
      assert (a + b)[0] == a[0] && (a + b)[1..] == a[1..] + b;
      StripAppend(a[1..], b);
    }
  }

  lemma {:induction false} StripRun(a: seq<Byte>)
    requires forall i :: 0 <= i < |a| ==> !IsWhitespace(a[i])
    ensures Strip(a) == a
    decreases |a|
  {
    if a != [] {
      StripRun(a[1..]);
    }
  }

  /** Joined together, the tokens are the line's non-whitespace bytes: nothing is lost, reordered or added. */
  lemma {:induction false} WordsJoin(s: seq<Byte>)
    ensures Concat(Words(s)) == Strip(s)
    decreases |s|
  {
    if s == [] {
    } else if IsWhitespace(s[0]) {
      WordsJoin(s[1..]);
    } else {
      var k := RunLength(s);
      WordsJoin(s[k..]);
      assert Words(s) == [s[..k]] + Words(s[k..]);
      assert s == s[..k] + s[k..];
      StripAppend(s[..k], s[k..]);
      StripRun(s[..k]);
    }
  }

  /** A line has no tokens exactly when every byte of it is whitespace. */
  lemma {:induction false} TokenizeEmptyIff(s: seq<Byte>)
    ensures Tokenize(s) == [] <==> forall i :: 0 <= i < |s| ==> IsWhitespace(s[i])
    decreases |s|
  {
    TokenizeIsWords(s);
    WordsBlank(s);
  }

  lemma {:induction false} WordsBlank(s: seq<Byte>)
    ensures Words(s) == [] <==> forall i :: 0 <= i < |s| ==> IsWhitespace(s[i])
    decreases |s|
  {
    if s != [] {
      if IsWhitespace(s[0]) {
        WordsBlank(s[1..]);
        assert forall i :: 1 <= i < |s| ==> s[i] == s[1..][i - 1];
      } else {
        assert Words(s) == [s[..RunLength(s)]] + Words(s[RunLength(s)..]);
      }
    }
  }

  // ---------------------------------------------------------------------
  // parse_rest_args
  // ---------------------------------------------------------------------

  /**
   * What `parse_rest_args` does with `args`, the first of which is argument
   * number `argIndex`, when the buffer has `room` free slots: the values it
   * pushes, in order, and its result. Each argument is parsed and then
   * pushed; the first parse error or full buffer ends the loop.
   */
  function RestArgs<T>(args: seq<seq<Byte>>, argIndex: nat, parse: seq<Byte> -> Result<T, ParseNumErr>,
                       room: nat): (r: (seq<T>, Result<(), ParseArgErr>))
    ensures |r.0| <= |args| && |r.0| <= room
    decreases |args|
  {
    if args == [] then ([], Ok(()))
    else
      match parse(args[0])
      case Err(e) => ([], Err(BadArg(argIndex, e)))
      case Ok(v) =>
        if room == 0 then ([], Err(TooManyArgs))
        else
          var rest := RestArgs(args[1..], argIndex + 1, parse, room - 1);
          ([v] + rest.0, rest.1)
  }

  /**
   * The loop ends in one of three ways: every argument pushed; the buffer
   * full, with `room` values pushed; or a parse error, numbered by the count
   * of values pushed before it.
   */
  lemma {:induction false} RestArgsOutcome<T>(args: seq<seq<Byte>>, argIndex: nat,
                                              parse: seq<Byte> -> Result<T, ParseNumErr>, room: nat)
    ensures var r := RestArgs(args, argIndex, parse, room);
            (r.1.Ok? ==> |r.0| == |args|) &&
            (r.1 == Err(TooManyArgs) ==> |r.0| == room < |args|) &&
            (r.1.Err? ==> r.1 == Err(TooManyArgs) ||
                          (r.1.error.BadArg? && r.1.error.index == argIndex + |r.0| < argIndex + |args|))
    decreases |args|
  {
    if args != [] && parse(args[0]).Ok? && room != 0 {
      RestArgsOutcome(args[1..], argIndex + 1, parse, room - 1);
    }
  }

  /**
   * When every argument parses, all values are pushed, in order, up to the
   * free room; the result is `TooManyArgs` exactly when they do not all fit.
   */
  lemma {:induction false} RestArgsAllParse<T>(args: seq<seq<Byte>>, argIndex: nat,
                                               parse: seq<Byte> -> Result<T, ParseNumErr>, room: nat)
    requires forall k :: 0 <= k < |args| ==> parse(args[k]).Ok?
    ensures var r := RestArgs(args, argIndex, parse, room);
            (r.1 == if |args| <= room then Ok(()) else Err(TooManyArgs)) &&
            |r.0| == (if |args| <= room then |args| else room) &&
            forall k :: 0 <= k < |r.0| ==> parse(args[k]) == Ok(r.0[k])
    decreases |args|
  {
    if args != [] && room != 0 {
      assert forall k :: 0 <= k < |args| - 1 ==> args[1..][k] == args[k + 1];
      RestArgsAllParse(args[1..], argIndex + 1, parse, room - 1);
    }
  }

  /**
   * The first argument that fails to parse, number `j` of the slice, ends the
   * loop with `BadArg(argIndex + j, e)`, unless the buffer filled up before
   * it; the values before it have been pushed, in order.
   */
  lemma {:induction false} RestArgsFirstError<T>(args: seq<seq<Byte>>, argIndex: nat,
                                                 parse: seq<Byte> -> Result<T, ParseNumErr>, room: nat, j: nat)
    requires j < |args| && parse(args[j]).Err?
    requires forall k :: 0 <= k < j ==> parse(args[k]).Ok?
    ensures var r := RestArgs(args, argIndex, parse, room);
            (r.1 == if j <= room then Err(BadArg(argIndex + j, parse(args[j]).error)) else Err(TooManyArgs)) &&
            |r.0| == (if j <= room then j else room) &&
            forall k :: 0 <= k < |r.0| ==> parse(args[k]) == Ok(r.0[k])
    decreases j
  {
    if j > 0 && room != 0 {
      assert forall k :: 0 <= k < |args| - 1 ==> args[1..][k] == args[k + 1];
      RestArgsFirstError(args[1..], argIndex + 1, parse, room - 1, j - 1);
    }
  }

  /** With room for every argument the buffer never overflows. */
  lemma {:induction false} RestArgsFit<T>(args: seq<seq<Byte>>, argIndex: nat,
                                          parse: seq<Byte> -> Result<T, ParseNumErr>, room: nat)
    requires |args| <= room
    ensures RestArgs(args, argIndex, parse, room).1 != Err(TooManyArgs)
    decreases |args|
  {
    if args != [] {
      RestArgsFit(args[1..], argIndex + 1, parse, room - 1);
    }
  }

  /**
   * `parse_rest_args`: parses each of `args` with `parse` and pushes the
   * values into `buf`.
   */
  method ParseRestArgs<T>(args: seq<seq<Byte>>, argIndex: nat, parse: seq<Byte> -> Result<T, ParseNumErr>,
                          buf: Vec<T>) returns (r: Result<(), ParseArgErr>)
    requires buf.Valid()
    modifies buf
    ensures buf.Valid()
    ensures var spec := RestArgs(args, argIndex, parse, buf.Capacity() - |old(buf.Contents())|);
            r == spec.1 && buf.Contents() == old(buf.Contents()) + spec.0
  {
    ghost var before := buf.Contents();
    ghost var spec := RestArgs(args, argIndex, parse, buf.Capacity() - |before|);
    ghost var done: seq<T> := [];
    assert args[0..] == args && before + [] == before && [] + spec.0 == spec.0;
    for j := 0 to |args|
      invariant buf.Valid() && buf.Contents() == before + done
      invariant var rest := RestArgs(args[j..], argIndex + j, parse, buf.Capacity() - |buf.Contents()|);
                spec == (done + rest.0, rest.1)
    {
      assert args[j..][0] == args[j] && args[j..][1..] == args[j + 1..];
      ghost var room := buf.Capacity() - |buf.Contents()|;
      var p := parse(args[j]);
      if p.Err? {
        return Err(BadArg(argIndex + j, p.error));
      }
      var ok := buf.Push(p.value);
      if !ok {
        return Err(TooManyArgs);
      }
      ghost var rest := RestArgs(args[j + 1..], argIndex + j + 1, parse, room - 1);
      assert RestArgs(args[j..], argIndex + j, parse, room) == ([p.value] + rest.0, rest.1);
      assert done + ([p.value] + rest.0) == (done + [p.value]) + rest.0;
      done := done + [p.value];
    }
    assert args[|args|..] == [];
    r := Ok(());
  }

  // ---------------------------------------------------------------------
  // The dispatcher
  // ---------------------------------------------------------------------

  datatype Command = Help | Boot | FlashCommand | Read | Write | Unknown

  /** The command names, as bytes. */
  const NAME_H: seq<Byte> := ['h' as int]
  const NAME_HELP: seq<Byte> := ['h' as int, 'e' as int, 'l' as int, 'p' as int]
  const NAME_B: seq<Byte> := ['b' as int]
  const NAME_BOOT: seq<Byte> := ['b' as int, 'o' as int, 'o' as int, 't' as int]
  const NAME_C: seq<Byte> := ['c' as int]
  const NAME_CMD: seq<Byte> := ['c' as int, 'm' as int, 'd' as int]
  const NAME_COMMAND: seq<Byte> := ['c' as int, 'o' as int, 'm' as int, 'm' as int, 'a' as int, 'n' as int, 'd' as int]
  const NAME_R: seq<Byte> := ['r' as int]
  const NAME_READ: seq<Byte> := ['r' as int, 'e' as int, 'a' as int, 'd' as int]
  const NAME_W: seq<Byte> := ['w' as int]
  const NAME_WRITE: seq<Byte> := ['w' as int, 'r' as int, 'i' as int, 't' as int, 'e' as int]

  /** The command a first token names; names are matched case-sensitively, short or long. */
  function CommandOf(name: seq<Byte>): (c: Command)
    ensures c != Unknown ==> 1 <= |name| <= 7 && forall i :: 0 <= i < |name| ==> IsAsciiLowercase(name[i])
  {
    if name == NAME_H || name == NAME_HELP then Help
    else if name == NAME_B || name == NAME_BOOT then Boot
    else if name == NAME_C || name == NAME_CMD || name == NAME_COMMAND then FlashCommand
    else if name == NAME_R || name == NAME_READ then Read
    else if name == NAME_W || name == NAME_WRITE then Write
    else Unknown
  }

  /** A command line whose arguments have all been parsed. */
  datatype Request =
    | HelpRequest
    | BootRequest
    | FlashRequest(bytes: seq<Byte>)
    | ReadRequest(start: U32, count: Usize)
    | WriteRequest(start: U32, words: seq<U32>)

  /**
   * The checks `parse_with_error` makes before it has any effect: the
   * command name, the arity of `r` and `w`, and every argument, with the
   * argument buffers holding `numArgs` values.
   */
  function ParseCommand(tokens: seq<seq<Byte>>, numArgs: nat): (r: Result<Request, ParseArgErr>)
    requires |tokens| >= 1
    ensures r == Err(UnknownCommand) <==> CommandOf(tokens[0]) == Unknown
    ensures r == Err(NotEnoughArgs) <==>
              (CommandOf(tokens[0]) == Read && |tokens| == 1) || (CommandOf(tokens[0]) == Write && |tokens| < 3)
    ensures r.Err? && r.error.BadArg? ==> 1 <= r.error.index < |tokens|
    ensures r.Ok? ==>
              match r.value
              case HelpRequest => CommandOf(tokens[0]) == Help
              case BootRequest => CommandOf(tokens[0]) == Boot
              case FlashRequest(bytes) => CommandOf(tokens[0]) == FlashCommand && |bytes| == |tokens| - 1
              case ReadRequest(_, _) => CommandOf(tokens[0]) == Read && 2 <= |tokens| <= 3
              case WriteRequest(_, words) => CommandOf(tokens[0]) == Write && |words| == |tokens| - 2
  {
    match CommandOf(tokens[0])
    case Help => Ok(HelpRequest)
    case Boot => Ok(BootRequest)
    case FlashCommand =>
      RestArgsOutcome(tokens[1..], 1, ParseU8, numArgs);
      var (bytes, r) := RestArgs(tokens[1..], 1, ParseU8, numArgs);
      if r.Err? then Err(r.error) else Ok(FlashRequest(bytes))
    case Read =>
      if |tokens| == 1 then Err(NotEnoughArgs)
      else if |tokens| > 3 then Err(TooManyArgs)
      else (
        match ParseU32(tokens[1])
        case Err(e) => Err(BadArg(1, e))
        case Ok(start) =>
          match (if |tokens| == 3 then ParseUsize(tokens[2]) else Ok(1))
          case Err(e) => Err(BadArg(2, e))
          case Ok(count) => Ok(ReadRequest(start, count)))
    case Write =>
      if |tokens| < 3 then Err(NotEnoughArgs)
      else (
        match ParseU32(tokens[1])
        case Err(e) => Err(BadArg(1, e))
        case Ok(start) =>
          RestArgsOutcome(tokens[2..], 2, ParseU32, numArgs);
          var (words, r) := RestArgs(tokens[2..], 2, ParseU32, numArgs);
          if r.Err? then Err(r.error) else Ok(WriteRequest(start, words)))
    case Unknown => Err(UnknownCommand)
  }

  /**
   * The address iterator `(start..).step_by(4)` of `r` and `w` does not
   * overflow. Each draw from it yields `start + 4k` and leaves `start + 4k + 1`
   * behind. `take(count)` draws `count` times, but `zip(words)` draws once
   * more after the last word.
   */
  predicate InAddressSpace(req: Request)
  {
    match req
    case ReadRequest(start, count) => ReadFits(start, count)
    case WriteRequest(start, words) => WriteFits(start, |words|)
    case _ => true
  }

  /** Every draw of `r`'s `count` addresses, the last one `start + 4(count - 1)`, leaves a `u32` behind. */
  predicate ReadFits(start: nat, count: nat)
  {
    start + 4 * count <= 0x1_0000_0002
  }

  /** The `n + 1` draws of `w`, the last one `start + 4n`, each leave a `u32` behind. */
  predicate WriteFits(start: nat, n: nat)
  {
    start + 4 * n <= 0xFFFF_FFFE
  }

  /** Target memory: the 32-bit word at each address that has been given one. */
  type Memory = map<nat, U32>

  /** The word a read at `addr` sees; words never written read as 0. */
  function Load(mem: Memory, addr: nat): U32
  {
    if addr in mem then mem[addr] else 0
  }

  /** Memory after storing `words` at `start`, `start + 4`, ... in turn. */
  function Stored(mem: Memory, start: nat, words: seq<U32>): (after: Memory)
    ensures forall a :: a in after <==> a in mem || IsWordOf(a, start, |words|)
    decreases |words|
  {
    if words == [] then mem
    else Stored(mem, start, words[..|words| - 1])[start + 4 * (|words| - 1) := words[|words| - 1]]
  }

  /**
   * The flash chip, as far as the console sees it: the byte clocked back
   * while the last byte of `sent` goes out, `sent` being everything sent
   * since chip select went low.
   */
  type Device = seq<Byte> -> Byte

  /** `flash_cmd`: each byte of `cmd` is replaced by the byte the chip returns for it. */
  function FlashCmd(cmd: seq<Byte>, device: Device): (resp: seq<Byte>)
    ensures |resp| == |cmd|
    ensures forall k :: 0 <= k < |cmd| ==> resp[k] == device(cmd[..k + 1])
  {
    seq(|cmd|, k requires 0 <= k < |cmd| => device(cmd[..k + 1]))
  }

  const CRLF: seq<Byte> := Ascii("\r\n")
  const SPACE: seq<Byte> := Ascii(" ")
  const ARROW: seq<Byte> := Ascii(" ->")
  const HEX_PREFIX: seq<Byte> := SPACE + Ascii("0x")   // " 0x"

  const HELP_TEXT: seq<Byte> := HELP_PREFIX + CRLF

  const HELP_PREFIX: seq<Byte> := Ascii(
    "Commands:\r\n\r\n" +
    "h|help: print this help\r\n" +
    "b|boot: bootloader\r\n" +
    "c|cmd|command BYTE*: send bytes to flash\r\n" +
    "r|read ADDR [WORDS=1]: read words from ADDR\r\n" +
    "w|write ADDR WORD+: write words to ADDR")

  /** Whether `s` ends with a line end. */
  predicate EndsWithLineEnd(s: seq<Byte>)
  {
    |s| >= 2 && s[|s| - 2..] == CRLF
  }

  lemma LineEndAfter(p: seq<Byte>, s: seq<Byte>)
    requires EndsWithLineEnd(s)
    ensures EndsWithLineEnd(p + s)
  {
    assert (p + s)[|p + s| - 2..] == s[|s| - 2..];
  }

  lemma CrlfEndsLine()
    ensures EndsWithLineEnd(CRLF)
  {
    assert CRLF[0..] == CRLF;
  }

  lemma LineEnd(p: seq<Byte>)
    ensures EndsWithLineEnd(p + CRLF)
  {
    assert (p + CRLF)[|p + CRLF| - 2..] == CRLF;
  }

  /** One field of the output: the separator `sep` and the unpadded hex of `n`. */
  function HexField(sep: seq<Byte>, n: nat): seq<Byte>
  {
    sep + Format(n, 16)
  }

  /** The fields for `ns`, one after the other, as the output loops write them. */
  function HexFields(sep: seq<Byte>, ns: seq<nat>): seq<Byte>
    decreases |ns|
  {
    if ns == [] then []
    else HexFields(sep, ns[..|ns| - 1]) + HexField(sep, ns[|ns| - 1])
  }

  /** Each field takes the separator and 1 to `m` digits when every value is below `16^m`. */
  lemma {:induction false} HexFieldsLength(sep: seq<Byte>, ns: seq<nat>, m: nat)
    requires m >= 1
    requires forall i :: 0 <= i < |ns| ==> ns[i] < Pow(16, m)
    ensures (|sep| + 1) * |ns| <= |HexFields(sep, ns)| <= (|sep| + m) * |ns|
    decreases |ns|
  {
    if ns != [] {
      var n := |ns| - 1;
      var lo, hi := |sep| + 1, |sep| + m;
      HexFieldsLength(sep, ns[..n], m);
      FormatLength(ns[n], 16, m);
      var before, field := |HexFields(sep, ns[..n])|, |HexField(sep, ns[n])|;
      assert |HexFields(sep, ns)| == before + field;
      assert lo <= field <= hi;
      MulStep(lo, n);
      MulStep(hi, n);
    }
  }

  lemma MulStep(a: nat, n: nat)
    ensures a * (n + 1) == a * n + a
  {
  }

  /** What `exec_cmd` writes for the chip's response `resp`: `" ->"`, then a space and the hex of each byte. */
  function EchoText(resp: seq<Byte>): (t: seq<Byte>)
    ensures EndsWithLineEnd(t)
  {
    LineEnd(ARROW + HexFields(SPACE, resp));
    ARROW + HexFields(SPACE, resp) + CRLF
  }

  /** The `count` words from `start` on, as `r` reads them. */
  function Loaded(mem: Memory, start: nat, count: nat): (words: seq<U32>)
    ensures |words| == count
    ensures forall k :: 0 <= k < count ==> words[k] == Load(mem, start + 4 * k)
  {
    seq(count, k requires 0 <= k < count => Load(mem, start + 4 * k))
  }

  /** What `r ADDR WORDS` writes: `" 0x"` and the hex of each word, between two line ends. */
  function ReadText(mem: Memory, start: nat, count: nat): (t: seq<Byte>)
    ensures EndsWithLineEnd(t)
  {
    LineEnd(CRLF + HexFields(HEX_PREFIX, Loaded(mem, start, count)));
    CRLF + HexFields(HEX_PREFIX, Loaded(mem, start, count)) + CRLF
  }

  /** The echo of `c` takes 2 or 3 bytes per byte returned, besides `" ->"` and the line end. */
  lemma EchoTextLength(resp: seq<Byte>)
    ensures 5 + 2 * |resp| <= |EchoText(resp)| <= 5 + 3 * |resp|
  {
    HexFieldsLength(SPACE, resp, 2);
  }

  /** The output of `r` takes 4 to 11 bytes per word, besides the two line ends. */
  lemma ReadTextLength(mem: Memory, start: nat, count: nat)
    ensures 4 + 4 * count <= |ReadText(mem, start, count)| <= 4 + 11 * count
  {
    HexFieldsLength(HEX_PREFIX, Loaded(mem, start, count), 8);
  }

  /** The effect of a command: what it writes, memory after it, and whether it reset the chip. */
  datatype Effect = Effect(output: seq<Byte>, mem: Memory, boot: bool)

  /** What `parse_with_error` does once the arguments of a command have been parsed. */
  function Execute(req: Request, mem: Memory, device: Device): (e: Effect)
    ensures e.boot <==> req.BootRequest?
    ensures req.BootRequest? ==> e.output == []
    ensures !req.BootRequest? ==> EndsWithLineEnd(e.output)
    ensures !req.WriteRequest? ==> e.mem == mem
  {
    LineEnd(HELP_PREFIX);
    CrlfEndsLine();
    match req
    case HelpRequest => Effect(HELP_TEXT, mem, false)
    case BootRequest => Effect([], mem, true)
    case FlashRequest(bytes) => Effect(EchoText(FlashCmd(bytes, device)), mem, false)
    case ReadRequest(start, count) => Effect(ReadText(mem, start, count), mem, false)
    case WriteRequest(start, words) => Effect(CRLF, Stored(mem, start, words), false)
  }

  /** `parse_with_error` on a non-empty token list: the effect of the command, or the first error met. */
  function Dispatch(tokens: seq<seq<Byte>>, numArgs: nat, mem: Memory, device: Device): (r: Result<Effect, ParseArgErr>)
    requires |tokens| >= 1
    ensures r.Err? <==> ParseCommand(tokens, numArgs).Err?
    ensures r.Err? ==> r.error == ParseCommand(tokens, numArgs).error
    ensures r.Ok? ==> (r.value.boot <==> CommandOf(tokens[0]) == Boot)
    ensures r.Ok? && CommandOf(tokens[0]) != Boot ==> EndsWithLineEnd(r.value.output)
    ensures r.Ok? && CommandOf(tokens[0]) == Boot ==> r.value.output == [] && r.value.mem == mem
    ensures r.Ok? && CommandOf(tokens[0]) != Write ==> r.value.mem == mem
  {
    match ParseCommand(tokens, numArgs)
    case Ok(req) => Ok(Execute(req, mem, device))
    case Err(e) => Err(e)
  }

  /** The accesses the parsed command `tokens` makes stay within the address space. */
  predicate InRange(tokens: seq<seq<Byte>>, numArgs: nat)
    requires |tokens| >= 1
  {
    ParseCommand(tokens, numArgs).Ok? ==> InAddressSpace(ParseCommand(tokens, numArgs).value)
  }

  const UNKNOWN_COMMAND: seq<Byte> := Ascii("Unknown command \"")
  const QUOTE_CRLF: seq<Byte> := Ascii("\"") + CRLF
  const NOT_ENOUGH_ARGUMENTS: seq<Byte> := Ascii("Not enough arguments") + CRLF
  const TOO_MANY_ARGUMENTS: seq<Byte> := Ascii("Too many arguments") + CRLF
  const BAD_ARGUMENT: seq<Byte> := Ascii("Bad argument ")
  const OPEN_TICK: seq<Byte> := Ascii(" `")
  const DIGIT_PARSE: seq<Byte> := Ascii("` (digit parse)") + CRLF
  const NUMBER_OVERFLOW: seq<Byte> := Ascii(" (number overflow)") + CRLF
  const BAD_NUMERICAL_BASE: seq<Byte> := Ascii("Bad numerical base") + CRLF

  /** The diagnostic `parse` writes for an error of the line `line`; argument numbers are printed as `u8`. */
  function ErrorText(e: ParseArgErr, line: seq<Byte>): (t: seq<Byte>)
    ensures EndsWithLineEnd(t)
  {
    LineEnd(Ascii("Not enough arguments"));
    LineEnd(Ascii("Too many arguments"));
    LineEnd(Ascii("Bad numerical base"));
    LineEnd(Ascii("\""));
    LineEnd(Ascii("` (digit parse)"));
    LineEnd(Ascii(" (number overflow)"));
    match e
    case UnknownCommand => LineEndAfter(UNKNOWN_COMMAND + line, QUOTE_CRLF); UNKNOWN_COMMAND + line + QUOTE_CRLF
    case NotEnoughArgs => NOT_ENOUGH_ARGUMENTS
    case TooManyArgs => TOO_MANY_ARGUMENTS
    case BadArg(i, BadDigit(c)) =>
      LineEndAfter(BAD_ARGUMENT + Format(i % 0x100, 10) + OPEN_TICK + [c], DIGIT_PARSE);
      BAD_ARGUMENT + Format(i % 0x100, 10) + OPEN_TICK + [c] + DIGIT_PARSE
    case BadArg(i, Overflow) =>
      LineEndAfter(BAD_ARGUMENT + Format(i % 0x100, 10), NUMBER_OVERFLOW);
      BAD_ARGUMENT + Format(i % 0x100, 10) + NUMBER_OVERFLOW
    case BadArg(_, BadBase(_)) => BAD_NUMERICAL_BASE
  }

  /** What `parse` does with one line: tokenize, dispatch, and report any error. */
  function Respond(line: seq<Byte>, mem: Memory, numArgs: nat, device: Device): (e: Effect)
    ensures e.boot ==> e.output == [] && e.mem == mem
    ensures !e.boot ==> EndsWithLineEnd(e.output)
  {
    var tokens := Tokenize(line);
    if tokens == [] then
      CrlfEndsLine();
      Effect(CRLF, mem, false)
    else
      match Dispatch(tokens, numArgs, mem, device)
      case Ok(eff) => eff
      case Err(e) => Effect(ErrorText(e, line), mem, false)
  }

  /** The caller of `parse` stays within its panic-free range: at most `numArgs` tokens, addresses in range. */
  predicate Accepted(line: seq<Byte>, numArgs: nat)
  {
    var tokens := Tokenize(line);
    |tokens| <= numArgs && (tokens != [] ==> InRange(tokens, numArgs))
  }

  lemma Assoc<T>(x: seq<T>, y: seq<T>, z: seq<T>)
    ensures x + (y + z) == x + y + z
  {
  }

  lemma Regroup<T>(p: seq<T>, x: seq<T>, h: seq<T>, f: seq<T>)
    ensures p + (x + h + f) == p + x + h + f
    ensures p + (x + (h + f)) == p + x + h + f
  {
  }

  lemma Regroup5<T>(p: seq<T>, a: seq<T>, b: seq<T>, c: seq<T>, d: seq<T>, e: seq<T>)
    ensures p + (a + b + c + d + e) == p + a + b + c + d + e
  {
  }

  // ---------------------------------------------------------------------
  // Properties of the dispatcher
  // ---------------------------------------------------------------------

  /** A line of nothing but whitespace writes a bare newline and runs nothing. */
  lemma BlankLineWritesNewline(line: seq<Byte>, mem: Memory, numArgs: nat, device: Device)
    requires forall i :: 0 <= i < |line| ==> IsWhitespace(line[i])
    ensures Respond(line, mem, numArgs, device) == Effect(CRLF, mem, false)
  {
    TokenizeEmptyIff(line);
  }

  /** Command names are matched case-sensitively: a token with an upper-case letter names no command. */
  lemma CommandNamesAreLowercase(name: seq<Byte>, i: nat)
    requires i < |name| && IsAsciiUppercase(name[i])
    ensures CommandOf(name) == Unknown
  {
  }

  /** `r` checks its arity before it parses anything: 1 token is too few, 4 or more too many. */
  lemma ReadArity(tokens: seq<seq<Byte>>, numArgs: nat)
    requires |tokens| >= 1 && CommandOf(tokens[0]) == Read
    ensures |tokens| == 1 ==> ParseCommand(tokens, numArgs) == Err(NotEnoughArgs)
    ensures |tokens| >= 4 ==> ParseCommand(tokens, numArgs) == Err(TooManyArgs)
    ensures 2 <= |tokens| <= 3 && ParseU32(tokens[1]).Err? ==>
              ParseCommand(tokens, numArgs) == Err(BadArg(1, ParseU32(tokens[1]).error))
    ensures |tokens| == 3 && ParseU32(tokens[1]).Ok? && ParseUsize(tokens[2]).Err? ==>
              ParseCommand(tokens, numArgs) == Err(BadArg(2, ParseUsize(tokens[2]).error))
  {
  }

  /** `r ADDR WORDS` reads `WORDS` words from `ADDR`, and `r ADDR` one. */
  lemma ReadRequestParsed(tokens: seq<seq<Byte>>, numArgs: nat)
    requires 2 <= |tokens| <= 3 && CommandOf(tokens[0]) == Read && ParseU32(tokens[1]).Ok?
    ensures |tokens| == 2 ==> ParseCommand(tokens, numArgs) == Ok(ReadRequest(ParseNum(tokens[1]).value, 1))
    ensures |tokens| == 3 && ParseNum(tokens[2]).Ok? ==>
              ParseCommand(tokens, numArgs) == Ok(ReadRequest(ParseNum(tokens[1]).value, ParseNum(tokens[2]).value))
  {
  }

  /** `w` with fewer than 3 tokens is refused before anything is parsed. */
  lemma WriteArity(tokens: seq<seq<Byte>>, numArgs: nat)
    requires |tokens| >= 1 && CommandOf(tokens[0]) == Write
    ensures |tokens| < 3 ==> ParseCommand(tokens, numArgs) == Err(NotEnoughArgs)
    ensures |tokens| >= 3 && ParseU32(tokens[1]).Err? ==>
              ParseCommand(tokens, numArgs) == Err(BadArg(1, ParseU32(tokens[1]).error))
  {
  }

  /** `w ADDR WORD+` whose arguments all parse stores every word, in order, from `ADDR` on. */
  lemma WriteRequestParsed(tokens: seq<seq<Byte>>, numArgs: nat)
    requires 3 <= |tokens| <= numArgs && CommandOf(tokens[0]) == Write
    requires forall k :: 1 <= k < |tokens| ==> ParseU32(tokens[k]).Ok?
    ensures ParseCommand(tokens, numArgs).Ok?
    ensures var req := ParseCommand(tokens, numArgs).value;
            req.WriteRequest? && ParseU32(tokens[1]) == Ok(req.start) &&
            |req.words| == |tokens| - 2 &&
            forall k :: 0 <= k < |req.words| ==> ParseU32(tokens[k + 2]) == Ok(req.words[k])
  {
    var args := tokens[2..];
    assert forall k :: 0 <= k < |args| ==> args[k] == tokens[k + 2];
    RestArgsAllParse(args, 2, ParseU32, numArgs);
  }

  /** Whether `a` is one of the `n` word addresses from `start` on. */
  predicate IsWordOf(a: nat, start: nat, n: nat)
  {
    start <= a < start + 4 * n && (a - start) % 4 == 0
  }

  /** After the stores, word `k` is at `start + 4k`, and every other address is as it was. */
  lemma {:induction false} StoredWords(mem: Memory, start: nat, words: seq<U32>)
    ensures forall k :: 0 <= k < |words| ==> Load(Stored(mem, start, words), start + 4 * k) == words[k]
    ensures forall a :: !IsWordOf(a, start, |words|) ==> Load(Stored(mem, start, words), a) == Load(mem, a)
    decreases |words|
  {
    if words != [] {
      var n := |words| - 1;
      var init := words[..n];
      StoredWords(mem, start, init);
      forall k | 0 <= k < |words|
        ensures Load(Stored(mem, start, words), start + 4 * k) == words[k]
      {
        if k < n {
          assert init[k] == words[k];
        }
      }
      forall a | !IsWordOf(a, start, |words|)
        ensures Load(Stored(mem, start, words), a) == Load(mem, a)
      {
        assert !IsWordOf(a, start, n);
      }
    }
  }

  /** `c` numbers its bytes from 1, so the first one above 255 is `BadArg(j, Overflow)`. */
  lemma CmdByteOverflow(tokens: seq<seq<Byte>>, numArgs: nat, j: nat)
    requires 1 <= j < |tokens| && j - 1 <= numArgs && CommandOf(tokens[0]) == FlashCommand
    requires forall k :: 1 <= k < j ==> ParseU8(tokens[k]).Ok?
    requires ParseNum(tokens[j]).Ok? && ParseNum(tokens[j]).value > 255
    ensures ParseCommand(tokens, numArgs) == Err(BadArg(j, Overflow))
  {
    var args := tokens[1..];
    assert forall k :: 0 <= k < |args| ==> args[k] == tokens[k + 1];
    RestArgsFirstError(args, 1, ParseU8, numArgs, j - 1);
  }

  /** `w` numbers its data words from 2, so the first one that fails to parse, at token `j`, is `BadArg(j, e)`. */
  lemma WriteDataIndex(tokens: seq<seq<Byte>>, numArgs: nat, j: nat)
    requires 2 <= j < |tokens| && j - 2 <= numArgs && CommandOf(tokens[0]) == Write
    requires forall k :: 1 <= k < j ==> ParseU32(tokens[k]).Ok?
    requires ParseU32(tokens[j]).Err?
    ensures ParseCommand(tokens, numArgs) == Err(BadArg(j, ParseU32(tokens[j]).error))
  {
    var args := tokens[2..];
    assert forall k :: 0 <= k < |args| ==> args[k] == tokens[k + 2];
    RestArgsFirstError(args, 2, ParseU32, numArgs, j - 2);
  }

  /** Within the token limit the argument buffers of `c` and `w` never overflow. */
  lemma ListsNeverOverflow(tokens: seq<seq<Byte>>, numArgs: nat)
    requires 1 <= |tokens| <= numArgs
    requires CommandOf(tokens[0]) == FlashCommand || CommandOf(tokens[0]) == Write
    ensures ParseCommand(tokens, numArgs) != Err(TooManyArgs)
  {
    RestArgsFit(tokens[1..], 1, ParseU8, numArgs);
    if |tokens| >= 3 {
      RestArgsFit(tokens[2..], 2, ParseU32, numArgs);
    }
  }

  /** Only a `w` command that parses changes memory, and a failed command has no effect beyond its diagnostic. */
  lemma OnlyWriteStores(line: seq<Byte>, mem: Memory, numArgs: nat, device: Device)
    ensures var tokens := Tokenize(line);
            tokens == [] || CommandOf(tokens[0]) != Write ==> Respond(line, mem, numArgs, device).mem == mem
    ensures var tokens := Tokenize(line);
            tokens != [] && ParseCommand(tokens, numArgs).Err? ==>
              Respond(line, mem, numArgs, device) == Effect(ErrorText(ParseCommand(tokens, numArgs).error, line), mem, false)
  {
  }

  /** Only `b` resets the chip. */
  lemma OnlyBootResets(line: seq<Byte>, mem: Memory, numArgs: nat, device: Device)
    ensures Respond(line, mem, numArgs, device).boot <==>
              var tokens := Tokenize(line);
              tokens != [] && CommandOf(tokens[0]) == Boot
  {
  }

  lemma {:induction false} HexFieldsAppend(sep: seq<Byte>, a: seq<nat>, b: seq<nat>)
    ensures HexFields(sep, a + b) == HexFields(sep, a) + HexFields(sep, b)
    decreases |b|
  {
    if b != [] {
      var n := |b| - 1;
      var f := HexField(sep, b[n]);
      assert (a + b)[..|a + b| - 1] == a + b[..n];
      assert (a + b)[|a + b| - 1] == b[n];
      HexFieldsAppend(sep, a, b[..n]);
      assert HexFields(sep, a + b) == HexFields(sep, a + b[..n]) + f;
      Assoc(HexFields(sep, a), HexFields(sep, b[..n]), f);
    } else {
      assert a + b == a;
    }
  }

  /**
   * In the fields for `before + [n] + after`, the value `n` shows as the
   * separator and its unpadded hex, between the fields for the values before
   * and after it.
   */
  lemma ShowsEachValue(sep: seq<Byte>, before: seq<nat>, n: nat, after: seq<nat>)
    ensures HexFields(sep, before + [n] + after) == HexFields(sep, before) + HexField(sep, n) + HexFields(sep, after)
  {
    var front := before + [n];
    HexFieldsAppend(sep, front, after);
    assert front[..|front| - 1] == before;
  }

  /**
   * Word `k` of what `r` writes is `" 0x"` and the unpadded hex of the word
   * at `start + 4k`, between the words before and after it, and it reads back
   * as that word.
   */
  lemma ReadShowsEachWord(mem: Memory, start: nat, count: nat, k: nat)
    requires k < count
    ensures var words := Loaded(mem, start, count);
            HexFields(HEX_PREFIX, words) ==
              HexFields(HEX_PREFIX, words[..k]) + HexField(HEX_PREFIX, Load(mem, start + 4 * k)) +
              HexFields(HEX_PREFIX, words[k + 1..])
    ensures ParseNum(HexField(HEX_PREFIX, Load(mem, start + 4 * k))[1..]) == Ok(Load(mem, start + 4 * k))
  {
    var words := Loaded(mem, start, count);
    var w := Load(mem, start + 4 * k);
    assert words == words[..k] + [w] + words[k + 1..];
    ShowsEachValue(HEX_PREFIX, words[..k], w, words[k + 1..]);
    HexFieldReadsBack(w);
  }

  /** A `" 0x"` field, without its leading space, parses back as its value. */
  lemma HexFieldReadsBack(w: U32)
    ensures ParseNum(HexField(HEX_PREFIX, w)[1..]) == Ok(w)
  {
    assert HexField(HEX_PREFIX, w)[1..] == Ascii("0x") + Format(w, 16);
    HexRoundTrip(w);
  }

  /**
   * A byte `b` of the chip's response is echoed as a space and its unpadded
   * hex, between the bytes before and after it, and the hex reads back as `b`.
   */
  lemma EchoShowsEachByte(before: seq<Byte>, b: Byte, after: seq<Byte>)
    ensures EchoText(before + [b] + after) ==
              ARROW + (HexFields(SPACE, before) + HexField(SPACE, b) + HexFields(SPACE, after)) + CRLF
    ensures Fold(0, HexField(SPACE, b)[1..], 16) == Ok(b)
  {
    ShowsEachValue(SPACE, before, b, after);
    assert HexField(SPACE, b)[1..] == Format(b, 16);
    FoldFormat(b, 16);
  }

  /** The hex is not zero-padded: a response byte below 16 is echoed as a single digit. */
  lemma EchoIsUnpadded(b: Byte)
    requires b < 16
    ensures EchoText([b]) == ARROW + SPACE + [DigitChar(b)] + CRLF
  {
    assert [b][..0] == [];
    assert Format(b, 16) == [DigitChar(b)];
    assert HexFields(SPACE, [b]) == [] + HexField(SPACE, b);
    assert [] + HexField(SPACE, b) == SPACE + [DigitChar(b)];
  }

  /**
   * A bad-digit or overflow diagnostic prints the argument number as a `u8`
   * in decimal, at most 3 digits that read back as that number, and a
   * bad-digit diagnostic also the offending byte.
   */
  lemma ErrorTextNumbersArgument(i: nat, chr: Byte, line: seq<Byte>)
    ensures var t := ErrorText(BadArg(i, Overflow), line);
            var d := t[|BAD_ARGUMENT|..|t| - |NUMBER_OVERFLOW|];
            t == BAD_ARGUMENT + d + NUMBER_OVERFLOW && 1 <= |d| <= 3 && ParseNum(d) == Ok(i % 0x100)
    ensures var t := ErrorText(BadArg(i, BadDigit(chr)), line);
            var d := t[|BAD_ARGUMENT|..|t| - |OPEN_TICK| - 1 - |DIGIT_PARSE|];
            t == BAD_ARGUMENT + d + OPEN_TICK + [chr] + DIGIT_PARSE && ParseNum(d) == Ok(i % 0x100)
  {
    var d := Format(i % 0x100, 10);
    FormatFits(i % 0x100);
    DecimalRoundTrip(i % 0x100);
    var t := ErrorText(BadArg(i, Overflow), line);
    assert t[|BAD_ARGUMENT|..|t| - |NUMBER_OVERFLOW|] == d;
    var u := ErrorText(BadArg(i, BadDigit(chr)), line);
    assert u[|BAD_ARGUMENT|..|u| - |OPEN_TICK| - 1 - |DIGIT_PARSE|] == d;
  }

  /** A bad base is reported without the argument number or the base. */
  lemma BadBaseHasNoIndex(i: nat, j: nat, b: Byte, c: Byte, line: seq<Byte>, other: seq<Byte>)
    ensures ErrorText(BadArg(i, BadBase(b)), line) == ErrorText(BadArg(j, BadBase(c)), other)
  {
  }

  /** An unknown command echoes the whole raw line, whitespace included, between quotes. */
  lemma UnknownEchoesLine(line: seq<Byte>, mem: Memory, numArgs: nat, device: Device)
    requires Tokenize(line) != [] && CommandOf(Tokenize(line)[0]) == Unknown
    ensures Respond(line, mem, numArgs, device) == Effect(UNKNOWN_COMMAND + line + QUOTE_CRLF, mem, false)
  {
  }

  // ---------------------------------------------------------------------
  // The console
  // ---------------------------------------------------------------------

  /** The console's view of the target: what it has written so far, memory, and whether it reset the chip. */
  class Console {
    var out: seq<Byte>
    var mem: Memory
    var booted: bool

    constructor (mem: Memory)
      ensures out == [] && this.mem == mem && !booted
    {
      out := [];
      this.mem := mem;
      booted := false;
    }

    /** `serial.write`: appends `bytes` to the output. */
    method Send(bytes: seq<Byte>)
      modifies this
      ensures out == old(out) + bytes
      ensures mem == old(mem) && booted == old(booted)
    {
      out := out + bytes;
    }

    /** `exec_cmd`: sends `args` to the flash chip and echoes its response in hex. */
    method ExecCmd(args: seq<Byte>, device: Device)
      modifies this
      ensures out == old(out) + EchoText(FlashCmd(args, device))
      ensures mem == old(mem) && booted == old(booted)
    {
      ghost var o := out;
      var resp := FlashCmd(args, device);
      Send(ARROW);
      for i := 0 to |resp|
        invariant out == o + ARROW + HexFields(SPACE, resp[..i])
        invariant mem == old(mem) && booted == old(booted)
      {
        ghost var h := HexFields(SPACE, resp[..i]);
        var buf := new Vec<Byte>(2);
        FormatFits(resp[i]);
        Send(SPACE);
        SendNumber(resp[i], 16, buf);
        assert resp[..i + 1][..i] == resp[..i];
        Regroup(o + ARROW, h, SPACE, Format(resp[i], 16));
        assert HexFields(SPACE, resp[..i + 1]) == h + HexField(SPACE, resp[i]);
      }
      assert resp[..|resp|] == resp;
      Send(CRLF);
      Regroup(o, ARROW, HexFields(SPACE, resp), CRLF);
    }

    /**
     * Formats `n` into the empty buffer `buf`, which has room for it, and
     * writes the buffer out.
     */
    method SendNumber(n: Usize, base: nat, buf: Vec<Byte>)
      requires 2 <= base <= 36 && buf.Valid() && buf.Contents() == []
      requires |Format(n, base)| <= buf.Capacity()
      modifies this, buf
      ensures buf.Valid() && buf.Contents() == Format(n, base)
      ensures out == old(out) + Format(n, base)
      ensures mem == old(mem) && booted == old(booted)
    {
      FormatIntoEmpty(n, base);
      var r := ToString(n, base, buf);
      assert r.Ok?;
      Send(buf.Contents());
    }

    /** The loop of `r`: the hex of each of the `count` words from `start` on. */
    method ReadWords(start: nat, count: nat)
      requires ReadFits(start, count)
      modifies this
      ensures out == old(out) + ReadText(mem, start, count)
      ensures mem == old(mem) && booted == old(booted)
    {
      ghost var o := out;
      ghost var words := Loaded(mem, start, count);
      var buf := new Vec<Byte>(8);
      Send(CRLF);
      var addr := start;
      for k := 0 to count
        invariant addr == start + 4 * k
        invariant buf.Valid() && buf.Capacity() == 8 && buf.Contents() == []
        invariant out == o + CRLF + HexFields(HEX_PREFIX, words[..k])
        invariant mem == old(mem) && booted == old(booted)
      {
        ghost var h := HexFields(HEX_PREFIX, words[..k]);
        var word := Load(mem, addr);
        FormatFits(word);
        Send(HEX_PREFIX);
        SendNumber(word, 16, buf);
        Regroup(o + CRLF, h, HEX_PREFIX, Format(word, 16));
        assert words[..k + 1][..k] == words[..k] && words[k] == word;
        assert HexFields(HEX_PREFIX, words[..k + 1]) == h + HexField(HEX_PREFIX, word);
        buf.Clear();
        addr := addr + 4;
      }
      assert words[..count] == words;
      Send(CRLF);
      Regroup(o, CRLF, HexFields(HEX_PREFIX, words), CRLF);
    }

    /** The loop of `w`: stores `words` at `start`, `start + 4`, ... */
    method WriteWords(start: nat, words: seq<U32>)
      requires WriteFits(start, |words|)
      modifies this
      ensures mem == Stored(old(mem), start, words)
      ensures out == old(out) && booted == old(booted)
    {
      for k := 0 to |words|
        invariant mem == Stored(old(mem), start, words[..k])
        invariant out == old(out) && booted == old(booted)
      {
        assert words[..k + 1][..k] == words[..k];
        mem := mem[start + 4 * k := words[k]];
      }
      assert words[..|words|] == words;
    }

    /**
     * `parse_with_error`: runs the command `cmdline` names. Nothing is
     * written, stored or reset unless every argument parses.
     */
    method ParseWithError(cmdline: seq<seq<Byte>>, numArgs: nat, device: Device) returns (r: Result<(), ParseArgErr>)
      requires |cmdline| >= 1 && InRange(cmdline, numArgs)
      modifies this
      ensures match Dispatch(cmdline, numArgs, old(mem), device)
              case Err(e) => r == Err(e) && out == old(out) && mem == old(mem) && booted == old(booted)
              case Ok(eff) => r == Ok(()) && out == old(out) + eff.output && mem == eff.mem && booted == (old(booted) || eff.boot)
    {
      match CommandOf(cmdline[0]) {
        case Help =>
          Send(HELP_TEXT);
          r := Ok(());
        case Boot =>
          booted := true;
          r := Ok(());
        case FlashCommand =>
          r := FlashArm(cmdline, numArgs, device);
        case Read =>
          r := ReadArm(cmdline, numArgs, device);
        case Write =>
          r := WriteArm(cmdline, numArgs, device);
        case Unknown =>
          r := Err(UnknownCommand);
      }
    }

    /** The `c` arm: parses every byte, then runs them through the flash chip. */
    method FlashArm(cmdline: seq<seq<Byte>>, numArgs: nat, device: Device) returns (r: Result<(), ParseArgErr>)
      requires |cmdline| >= 1 && CommandOf(cmdline[0]) == FlashCommand
      modifies this
      ensures match Dispatch(cmdline, numArgs, old(mem), device)
              case Err(e) => r == Err(e) && out == old(out) && mem == old(mem) && booted == old(booted)
              case Ok(eff) => r == Ok(()) && out == old(out) + eff.output && mem == eff.mem && booted == (old(booted) || eff.boot)
    {
      ghost var spec := RestArgs(cmdline[1..], 1, ParseU8, numArgs);
      var bytes := new Vec<Byte>(numArgs);
      r := ParseRestArgs(cmdline[1..], 1, ParseU8, bytes);
      assert [] + spec.0 == spec.0;
      if r.Ok? {
        ExecCmd(bytes.Contents(), device);
        r := Ok(());
      }
    }

    /** The `r` arm: checks the arity, parses the address and the word count, then reads. */
    method ReadArm(cmdline: seq<seq<Byte>>, numArgs: nat, device: Device) returns (r: Result<(), ParseArgErr>)
      requires |cmdline| >= 1 && CommandOf(cmdline[0]) == Read && InRange(cmdline, numArgs)
      modifies this
      ensures match Dispatch(cmdline, numArgs, old(mem), device)
              case Err(e) => r == Err(e) && out == old(out) && mem == old(mem) && booted == old(booted)
              case Ok(eff) => r == Ok(()) && out == old(out) + eff.output && mem == eff.mem && booted == (old(booted) || eff.boot)
    {
      if |cmdline| == 1 {
        return Err(NotEnoughArgs);
      } else if |cmdline| > 3 {
        return Err(TooManyArgs);
      }
      var start := ParseU32(cmdline[1]);
      if start.Err? {
        return Err(BadArg(1, start.error));
      }
      var count := 1;
      if |cmdline| == 3 {
        var c := ParseUsize(cmdline[2]);
        if c.Err? {
          return Err(BadArg(2, c.error));
        }
        count := c.value;
      }
      ReadWords(start.value, count);
      r := Ok(());
    }

    /** The `w` arm: checks the arity, parses the address and every word, then stores them. */
    method WriteArm(cmdline: seq<seq<Byte>>, numArgs: nat, device: Device) returns (r: Result<(), ParseArgErr>)
      requires |cmdline| >= 1 && CommandOf(cmdline[0]) == Write && InRange(cmdline, numArgs)
      modifies this
      ensures match Dispatch(cmdline, numArgs, old(mem), device)
              case Err(e) => r == Err(e) && out == old(out) && mem == old(mem) && booted == old(booted)
              case Ok(eff) => r == Ok(()) && out == old(out) + eff.output && mem == eff.mem && booted == (old(booted) || eff.boot)
    {
      if |cmdline| < 3 {
        return Err(NotEnoughArgs);
      }
      var start := ParseU32(cmdline[1]);
      if start.Err? {
        return Err(BadArg(1, start.error));
      }
      ghost var spec := RestArgs(cmdline[2..], 2, ParseU32, numArgs);
      var words := new Vec<U32>(numArgs);
      r := ParseRestArgs(cmdline[2..], 2, ParseU32, words);
      assert [] + spec.0 == spec.0;
      if r.Ok? {
        WriteWords(start.value, words.Contents());
        Send(CRLF);
        r := Ok(());
      }
    }

    /** Formats the argument number `n` as a `u8` in decimal, into a 3-byte buffer, and writes it. */
    method SendArgNumber(n: nat)
      modifies this
      ensures out == old(out) + Format(n % 0x100, 10)
      ensures mem == old(mem) && booted == old(booted)
    {
      var buf := new Vec<Byte>(3);
      FormatFits(n % 0x100);
      SendNumber(n % 0x100, 10, buf);
    }

    /** The error arms of `parse`: writes the diagnostic for `e`, raised by the line `line`. */
    method ReportError(e: ParseArgErr, line: seq<Byte>)
      modifies this
      ensures out == old(out) + ErrorText(e, line)
      ensures mem == old(mem) && booted == old(booted)
    {
      ghost var o := out;
      match e {
        case UnknownCommand =>
          Send(UNKNOWN_COMMAND);
          Send(line);
          Send(QUOTE_CRLF);
          Regroup(o, UNKNOWN_COMMAND, line, QUOTE_CRLF);
        case NotEnoughArgs =>
          Send(NOT_ENOUGH_ARGUMENTS);
        case TooManyArgs =>
          Send(TOO_MANY_ARGUMENTS);
        case BadArg(n, BadDigit(chr)) =>
          Send(BAD_ARGUMENT);
          SendArgNumber(n);
          Send(OPEN_TICK);
          Send([chr]);
          Send(DIGIT_PARSE);
          Regroup5(o, BAD_ARGUMENT, Format(n % 0x100, 10), OPEN_TICK, [chr], DIGIT_PARSE);
        case BadArg(n, Overflow) =>
          Send(BAD_ARGUMENT);
          SendArgNumber(n);
          Send(NUMBER_OVERFLOW);
          Regroup(o, BAD_ARGUMENT, Format(n % 0x100, 10), NUMBER_OVERFLOW);
        case BadArg(_, BadBase(_)) =>
          Send(BAD_NUMERICAL_BASE);
      }
    }

    /** `parse`: tokenizes `line`, runs the command, and writes the diagnostic for any error. */
    method Parse(line: seq<Byte>, numArgs: nat, device: Device)
      requires Accepted(line, numArgs) && !booted
      modifies this
      ensures var e := Respond(line, old(mem), numArgs, device);
              out == old(out) + e.output && mem == e.mem && booted == e.boot
    {
      var cmd := Tokenize(line);
      if cmd == [] {
        Send(CRLF);
        return;
      }
      var r := ParseWithError(cmd, numArgs, device);
      if r.Err? {
        ReportError(r.error, line);
      }
    }
  }
}
