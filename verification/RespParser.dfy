/**
 The incremental request parser and its inverse, the request serializer.

 `Parse` says what the first command of a byte string is; the methods below it are the program's loops over a
 mutable buffer, which consume a whole command or nothing. The theorems: a verdict other than "incomplete" never
 changes when more bytes arrive, cutting the stream into reads differently never changes the commands, and the
 serializer's output parses back to the same argument list.
 */
module RespParser {
  import opened Bytes
  import Words
  import opened Options
  import opened Decimal

  // ----- lines

  /** The position of the first CR LF at or after `from`. */
  function FirstCrlf(b: bytes, from: nat): (r: Option<nat>)
    ensures r.Some? ==> from <= r.value && r.value + 2 <= |b| && b[r.value] == CR && b[r.value + 1] == LF
    decreases |b| - from
  {
    if from + 1 >= |b| then None
    else if b[from] == CR && b[from + 1] == LF then Some(from)
    else FirstCrlf(b, from + 1)
  }

  /** The program's scan for the end of a line. */
  method FindCrlf(b: bytes, from: nat) returns (r: Option<nat>)
    ensures r == FirstCrlf(b, from)
  {
    var i := from;
    while i + 1 < |b|
      invariant from <= i
      invariant FirstCrlf(b, from) == FirstCrlf(b, i)
      decreases |b| - i
    {
      if b[i] == CR && b[i + 1] == LF {
        return Some(i);
      }
      i := i + 1;
    }
    return None;
  }

  /** A line that does not contain its own terminator. */
  predicate Clean(line: bytes) {
    forall i :: 0 <= i < |line| - 1 ==> !(line[i] == CR && line[i + 1] == LF)
  }

  lemma {:induction false} CrlfStable(b: bytes, x: bytes, from: nat)
    requires FirstCrlf(b, from).Some?
    ensures FirstCrlf(b + x, from) == FirstCrlf(b, from)
    decreases |b| - from
  {
    assert (b + x)[from] == b[from] && (b + x)[from + 1] == b[from + 1];
    if !(b[from] == CR && b[from + 1] == LF) {
      CrlfStable(b, x, from + 1);
    }
  }

  lemma {:induction false} CrlfIsFirst(b: bytes, from: nat, at: nat)
    requires from <= at && at + 2 <= |b| && b[at] == CR && b[at + 1] == LF
    requires forall i :: from <= i < at ==> !(b[i] == CR && b[i + 1] == LF)
    ensures FirstCrlf(b, from) == Some(at)
    decreases at - from
  {
    if from < at {
      CrlfIsFirst(b, from + 1, at);
    }
  }

  /** A clean line followed by CR LF ends there. */
  lemma LineEnds(pre: bytes, line: bytes, rest: bytes)
    requires Clean(line)
    ensures FirstCrlf(pre + line + CRLF + rest, |pre|) == Some(|pre| + |line|)
  {
    var b := pre + line + CRLF + rest;
    var at := |pre| + |line|;
    assert b[at] == CR && b[at + 1] == LF;
    forall i | |pre| <= i < at ensures !(b[i] == CR && b[i + 1] == LF) {
      assert b[i] == line[i - |pre|];
      if i + 1 < at {
        assert b[i + 1] == line[i + 1 - |pre|];
      }
    }
    CrlfIsFirst(b, |pre|, at);
  }

  // ----- integer lines

  datatype IntLine = NoLine | BadLine | IntLine(value: int, next: nat)

  /** The integer line that starts at `at`, and the position just after its CR LF. */
  function IntLineAt(b: bytes, at: nat): (r: IntLine)
    ensures r.IntLine? ==> at + 2 <= r.next <= |b|
    ensures r.IntLine? ==> -TWO63 <= r.value < TWO63
  {
    match FirstCrlf(b, at)
    case None => NoLine
    case Some(i) =>
      match ParseWrapping(b[at..i])
      case None => BadLine
      case Some(n) => IntLine(n, i + 2)
  }

  method ReadIntLine(b: bytes, at: nat) returns (r: IntLine)
    ensures r == IntLineAt(b, at)
  {
    var crlf := FindCrlf(b, at);
    if crlf.None? {
      return NoLine;
    }
    var n := ParseI64(b[at..crlf.value]);
    if n.None? {
      return BadLine;
    }
    return IntLine(n.value, crlf.value + 2);
  }

  lemma IntLineStable(b: bytes, x: bytes, at: nat)
    requires !IntLineAt(b, at).NoLine?
    ensures IntLineAt(b + x, at) == IntLineAt(b, at)
  {
    CrlfStable(b, x, at);
    var i := FirstCrlf(b, at).value;
    assert (b + x)[at..i] == b[at..i];
  }

  lemma PrintIsClean(n: int)
    ensures Clean(Print(n))
  {
    PrintDenotes(n);
  }

  lemma PrintedLineReads(pre: bytes, n: int, rest: bytes)
    requires -I64_MAX <= n <= I64_MAX
    ensures IntLineAt(pre + Print(n) + CRLF + rest, |pre|) == IntLine(n, |pre| + |Print(n)| + 2)
  {
    hide Print, FirstCrlf, ParseWrapping, Clean;
    PrintIsClean(n);
    LineEnds(pre, Print(n), rest);
    var b := pre + Print(n) + CRLF + rest;
    assert b[|pre|..|pre| + |Print(n)|] == Print(n);
    ReadersUndoPrint(n);
  }

  // ----- commands

  type Argv = seq<bytes>

  datatype Bulk = BulkNeedsMore | BadBulk | Bulk(arg: bytes, next: nat)

  /** The bulk string that starts at `cursor`, and the position just after it. */
  function BulkAt(b: bytes, cursor: nat): (r: Bulk)
    requires cursor <= |b|
    ensures r.Bulk? ==> cursor < r.next <= |b|
  {
    if cursor >= |b| then BulkNeedsMore
    else if b[cursor] != DOLLAR then BadBulk
    else match IntLineAt(b, cursor + 1)
      case NoLine => BulkNeedsMore
      case BadLine => BadBulk
      case IntLine(size, body) =>
        if size < 0 then Bulk([], body)
        else if body + size + 2 > |b| then BulkNeedsMore
        else if b[body + size] != CR || b[body + size + 1] != LF then BadBulk
        else Bulk(b[body..body + size], body + size + 2)
  }

  datatype Bulks = NeedMore | Bad | Bulks(argv: Argv, end: nat)

  function Prepend(arg: bytes, r: Bulks): Bulks {
    match r
    case Bulks(argv, end) => Bulks([arg] + argv, end)
    case _ => r
  }

  /** The n bulk strings that start at `cursor`. */
  function BulksAt(b: bytes, cursor: nat, n: nat): (r: Bulks)
    requires cursor <= |b|
    ensures r.Bulks? ==> |r.argv| == n && cursor <= r.end <= |b|
    decreases n
  {
    if n == 0 then Bulks([], cursor)
    else match BulkAt(b, cursor)
      case BulkNeedsMore => NeedMore
      case BadBulk => Bad
      case Bulk(arg, next) => Prepend(arg, BulksAt(b, next, n - 1))
  }

  datatype Parsed = Incomplete | Malformed | Parsed(argv: Argv, used: nat)

  const BLANKS: set<byte> := {SPACE, TAB}

  /** What the first command of b is. */
  function Parse(b: bytes): (r: Parsed)
    ensures r.Parsed? ==> 2 <= r.used <= |b|
  {
    if b == [] then Incomplete
    else if b[0] == STAR then
      match IntLineAt(b, 1)
      case NoLine => Incomplete
      case BadLine => Malformed
      case IntLine(n, next) =>
        if n < 0 then Parsed([], next)
        else match BulksAt(b, next, n)
          case NeedMore => Incomplete
          case Bad => Malformed
          case Bulks(argv, end) => Parsed(argv, end)
    else
      match FirstCrlf(b, 0)
      case None => Incomplete
      case Some(i) => Parsed(Words.Fields(b[..i], BLANKS), i + 2)
  }

  // ----- the program: all-or-nothing consumption of a mutable buffer

  datatype Poll = Pending | Broken | Ready(argv: Argv)

  /** What one call reports, given what the buffered bytes parse to. */
  function Report(r: Parsed): Poll {
    match r
    case Incomplete => Pending
    case Malformed => Broken
    case Parsed(argv, used) => Ready(argv)
  }

  /** What one call leaves in the buffer. */
  function Left(b: bytes, r: Parsed): bytes
    requires r.Parsed? ==> r.used <= |b|
  {
    if r.Parsed? then b[r.used..] else b
  }

  function SliceAll(b: bytes, spans: seq<(nat, nat)>): Argv
    requires forall k :: 0 <= k < |spans| ==> spans[k].0 + spans[k].1 <= |b|
  {
    seq(|spans|, k requires 0 <= k < |spans| => b[spans[k].0..spans[k].0 + spans[k].1])
  }

  /** Put arguments already read in front of what the rest of the frame holds. */
  function PrependAll(args: Argv, r: Bulks): Bulks {
    match r
    case Bulks(argv, end) => Bulks(args + argv, end)
    case _ => r
  }

  /** Reading one more bulk string moves it from the unread part to the arguments. */
  lemma BulkTaken(args: Argv, b: bytes, cursor: nat, n: nat)
    requires cursor <= |b| && n > 0
    ensures match BulkAt(b, cursor)
            case BulkNeedsMore => PrependAll(args, BulksAt(b, cursor, n)) == NeedMore
            case BadBulk => PrependAll(args, BulksAt(b, cursor, n)) == Bad
            case Bulk(arg, next) =>
              PrependAll(args, BulksAt(b, cursor, n)) == PrependAll(args + [arg], BulksAt(b, next, n - 1))
  {
    hide BulkAt;
    var bulk := BulkAt(b, cursor);
    if bulk.Bulk? {
      var r := BulksAt(b, bulk.next, n - 1);
      if r.Bulks? {
        assert args + ([bulk.arg] + r.argv) == (args + [bulk.arg]) + r.argv;
      }
    }
  }

  lemma NoneTaken(b: bytes, r: Bulks)
    ensures SliceAll(b, []) == [] && PrependAll([], r) == r
  {
    if r.Bulks? {
      assert [] + r.argv == r.argv;
    }
  }

  lemma AllTaken(args: Argv, b: bytes, cursor: nat)
    requires cursor <= |b|
    ensures PrependAll(args, BulksAt(b, cursor, 0)) == Bulks(args, cursor)
  {
    assert args + [] == args;
  }

  /** Slice the recorded spans out of the frame. */
  method SliceArgs(frame: bytes, spans: seq<(nat, nat)>) returns (argv: Argv)
    requires forall k :: 0 <= k < |spans| ==> spans[k].0 + spans[k].1 <= |frame|
    ensures argv == SliceAll(frame, spans)
  {
    argv := [];
    for k := 0 to |spans|
      invariant argv == SliceAll(frame, spans)[..k]
    {
      var (start, len) := spans[k];
      argv := argv + [frame[start..start + len]];
    }
  }

  lemma FrameKeepsSpans(b: bytes, cursor: nat, spans: seq<(nat, nat)>)
    requires cursor <= |b|
    requires forall k :: 0 <= k < |spans| ==> spans[k].0 + spans[k].1 <= cursor
    ensures SliceAll(b[..cursor], spans) == SliceAll(b, spans)
  {
    forall k | 0 <= k < |spans|
      ensures b[..cursor][spans[k].0..spans[k].0 + spans[k].1] == b[spans[k].0..spans[k].0 + spans[k].1]
    {
    }
  }

  lemma SpanAdded(b: bytes, spans: seq<(nat, nat)>, start: nat, len: nat)
    requires forall k :: 0 <= k < |spans| ==> spans[k].0 + spans[k].1 <= |b|
    requires start + len <= |b|
    ensures SliceAll(b, spans + [(start, len)]) == SliceAll(b, spans) + [b[start..start + len]]
  {
  }

  method ParseArray(buf: ByteBuf) returns (r: Poll)
    requires buf.data != [] && buf.data[0] == STAR
    modifies buf
    ensures r == Report(Parse(old(buf.data)))
    ensures buf.data == Left(old(buf.data), Parse(old(buf.data)))
  {
    hide SliceAll, PrependAll, BulksAt, IntLineAt, FirstCrlf, Words.Fields;
    var b := buf.data;
    var header := ReadIntLine(b, 1);
    if header.NoLine? {
      return Pending;
    }
    if header.BadLine? {
      return Broken;
    }
    if header.value < 0 {
      var _ := buf.SplitTo(header.next);
      return Ready([]);
    }
    var n: nat := header.value;
    var cursor: nat := header.next;
    var argvLens: seq<(nat, nat)> := [];
    ghost var args: Argv := [];
    ghost var whole := BulksAt(b, cursor, n);
    NoneTaken(b, whole);
    for i: nat := 0 to n
      invariant cursor <= |b| && buf.data == b
      invariant forall k :: 0 <= k < |argvLens| ==> argvLens[k].0 + argvLens[k].1 <= cursor
      invariant SliceAll(b, argvLens) == args
      invariant whole == PrependAll(args, BulksAt(b, cursor, n - i))
    {
      BulkTaken(args, b, cursor, n - i);
      if cursor >= |b| {
        return Pending;
      }
      if b[cursor] != DOLLAR {
        return Broken;
      }
      var size := ReadIntLine(b, cursor + 1);
      if size.NoLine? {
        return Pending;
      }
      if size.BadLine? {
        return Broken;
      }
      if size.value < 0 {
        SpanAdded(b, argvLens, size.next, 0);
        assert b[size.next..size.next + 0] == [];
        argvLens := argvLens + [(size.next, 0)];
        cursor := size.next;
        args := args + [[]];
        continue;
      }
      var bodyEnd := size.next + size.value;
      if bodyEnd + 2 > |b| {
        return Pending;
      }
      if b[bodyEnd] != CR || b[bodyEnd + 1] != LF {
        return Broken;
      }
      SpanAdded(b, argvLens, size.next, size.value);
      argvLens := argvLens + [(size.next, size.value)];
      cursor := bodyEnd + 2;
      args := args + [b[size.next..bodyEnd]];
    }
    AllTaken(args, b, cursor);
    var frame := buf.SplitTo(cursor);
    FrameKeepsSpans(b, cursor, argvLens);
    var argv := SliceArgs(frame, argvLens);
    return Ready(argv);
  }

  method ParseInline(buf: ByteBuf) returns (r: Poll)
    requires buf.data != [] && buf.data[0] != STAR
    modifies buf
    ensures r == Report(Parse(old(buf.data)))
    ensures buf.data == Left(old(buf.data), Parse(old(buf.data)))
  {
    var lineEnd := FindCrlf(buf.data, 0);
    if lineEnd.None? {
      return Pending;
    }
    var b := buf.data;
    var frame := buf.SplitTo(lineEnd.value + 2);
    assert frame[..lineEnd.value] == b[..lineEnd.value];
    return Ready(Words.Fields(frame[..lineEnd.value], BLANKS));
  }

  /** Try to parse one command; an incomplete or malformed one leaves the buffer untouched. */
  method ParseCommand(buf: ByteBuf) returns (r: Poll)
    modifies buf
    ensures r == Report(Parse(old(buf.data)))
    ensures buf.data == Left(old(buf.data), Parse(old(buf.data)))
  {
    if buf.data == [] {
      return Pending;
    }
    if buf.data[0] == STAR {
      r := ParseArray(buf);
    } else {
      r := ParseInline(buf);
    }
  }

  // ----- more bytes never change a verdict

  lemma BulkStable(b: bytes, x: bytes, cursor: nat)
    requires cursor <= |b| && !BulkAt(b, cursor).BulkNeedsMore?
    ensures BulkAt(b + x, cursor) == BulkAt(b, cursor)
  {
    assert (b + x)[cursor] == b[cursor];
    if b[cursor] == DOLLAR {
      IntLineStable(b, x, cursor + 1);
      var line := IntLineAt(b, cursor + 1);
      if line.IntLine? && line.value >= 0 {
        var end := line.next + line.value;
        assert (b + x)[line.next..end] == b[line.next..end];
      }
    }
  }

  lemma {:induction false} BulksStable(b: bytes, x: bytes, cursor: nat, n: nat)
    requires cursor <= |b| && !BulksAt(b, cursor, n).NeedMore?
    ensures BulksAt(b + x, cursor, n) == BulksAt(b, cursor, n)
    decreases n
  {
    hide BulkAt;
    if n == 0 {
    } else {
      BulkStable(b, x, cursor);
      var bulk := BulkAt(b, cursor);
      if bulk.Bulk? {
        BulksStable(b, x, bulk.next, n - 1);
      }
    }
  }

  /** A parsed command or an error is final: appending bytes does not change it. */
  lemma ParseStable(b: bytes, x: bytes)
    requires !Parse(b).Incomplete?
    ensures Parse(b + x) == Parse(b)
  {
    if b[0] == STAR {
      IntLineStable(b, x, 1);
      var line := IntLineAt(b, 1);
      if line.IntLine? && line.value >= 0 {
        BulksStable(b, x, line.next, line.value);
      }
    } else {
      CrlfStable(b, x, 0);
      var i := FirstCrlf(b, 0).value;
      assert (b + x)[..i] == b[..i];
    }
  }

  // ----- the read loop

  /** All complete commands of a byte string, what is left over, and whether an error stopped the parsing. */
  datatype Drained = Drained(cmds: seq<Argv>, rest: bytes, bad: bool) {
    /** These commands, then those of a later stage. */
    function Then(later: Drained): Drained {
      Drained(cmds + later.cmds, later.rest, later.bad)
    }

    predicate SameCommands(other: Drained) {
      cmds == other.cmds && bad == other.bad && (!bad ==> rest == other.rest)
    }
  }

  function Drain(b: bytes): Drained
    decreases |b|
  {
    match Parse(b)
    case Incomplete => Drained([], b, false)
    case Malformed => Drained([], b, true)
    case Parsed(argv, used) => Drained([argv], [], false).Then(Drain(b[used..]))
  }

  lemma ThenAssociative(a: Drained, b: Drained, c: Drained)
    ensures a.Then(b).Then(c) == a.Then(b.Then(c))
  {
    assert (a.cmds + b.cmds) + c.cmds == a.cmds + (b.cmds + c.cmds);
  }

  /** Draining a longer string: the same commands first, then those of the leftover and the new bytes. */
  lemma {:induction false} DrainAppend(b: bytes, x: bytes)
    ensures Drain(b).bad ==> Drain(b + x).SameCommands(Drain(b))
    ensures !Drain(b).bad ==> Drain(b + x) == Drain(b).Then(Drain(Drain(b).rest + x))
    decreases |b|
  {
    var r := Parse(b);
    if r.Incomplete? {
      assert Drain(b).Then(Drain(b + x)).cmds == Drain(b + x).cmds;
    } else {
      ParseStable(b, x);
      if r.Parsed? {
        assert (b + x)[r.used..] == b[r.used..] + x;
        DrainAppend(b[r.used..], x);
        var d := Drain(b[r.used..]);
        ThenAssociative(Drained([r.argv], [], false), d, Drain(d.rest + x));
      }
    }
  }

  lemma {:induction false} DrainedRestIsIncomplete(b: bytes)
    ensures !Drain(b).bad ==> Parse(Drain(b).rest).Incomplete?
    decreases |b|
  {
    var r := Parse(b);
    if r.Parsed? {
      DrainedRestIsIncomplete(b[r.used..]);
    }
  }

  function Concat(chunks: seq<bytes>): bytes {
    if chunks == [] then [] else chunks[0] + Concat(chunks[1..])
  }

  /** The connection's loop: append each read to what is left, then take every complete command. */
  function ReadLoop(buf: bytes, chunks: seq<bytes>): Drained
    decreases |chunks|
  {
    if chunks == [] then Drained([], buf, false)
    else
      var d := Drain(buf + chunks[0]);
      if d.bad then d else d.Then(ReadLoop(d.rest, chunks[1..]))
  }

  /** However the stream is cut into reads, the loop sees the commands of the whole stream. */
  lemma {:induction false} ChunkingIrrelevant(buf: bytes, chunks: seq<bytes>)
    requires Parse(buf).Incomplete?
    ensures ReadLoop(buf, chunks).SameCommands(Drain(buf + Concat(chunks)))
    decreases |chunks|
  {
    if chunks == [] {
      assert buf + [] == buf;
    } else {
      var first := buf + chunks[0];
      assert buf + Concat(chunks) == first + Concat(chunks[1..]);
      DrainAppend(first, Concat(chunks[1..]));
      if !Drain(first).bad {
        DrainedRestIsIncomplete(first);
        ChunkingIrrelevant(Drain(first).rest, chunks[1..]);
      }
    }
  }

  /** Two ways of cutting the same stream give the same commands and the same error, if any. */
  lemma CutsAgree(chunks: seq<bytes>, others: seq<bytes>)
    requires Concat(chunks) == Concat(others)
    ensures ReadLoop([], chunks).SameCommands(ReadLoop([], others))
  {
    ChunkingIrrelevant([], chunks);
    ChunkingIrrelevant([], others);
  }

  // ----- print, then parse

  function EncodeBulk(a: bytes): bytes {
    [DOLLAR] + Print(|a|) + CRLF + a + CRLF
  }

  function EncodeBulks(argv: Argv): bytes {
    if argv == [] then [] else EncodeBulk(argv[0]) + EncodeBulks(argv[1..])
  }

  /** The request form every client library sends, and the proxy sends upstream. */
  function Encode(argv: Argv): bytes {
    [STAR] + Print(|argv|) + CRLF + EncodeBulks(argv)
  }

  /** Lengths that fit the 64-bit headers; every buffer of the program does. */
  predicate Encodable(argv: Argv) {
    |argv| <= I64_MAX && forall k :: 0 <= k < |argv| ==> |argv[k]| <= I64_MAX
  }

  method WriteHeader(outbox: ByteBuf, kind: byte, n: nat)
    requires n <= I64_MAX
    modifies outbox
    ensures outbox.data == old(outbox.data) + ([kind] + Print(n) + CRLF)
  {
    outbox.Extend([kind]);
    WriteInt(outbox, n);
    outbox.Extend(CRLF);
  }

  method WriteBulk(outbox: ByteBuf, a: bytes)
    requires |a| <= I64_MAX
    modifies outbox
    ensures outbox.data == old(outbox.data) + EncodeBulk(a)
  {
    WriteHeader(outbox, DOLLAR, |a|);
    outbox.Extend(a);
    outbox.Extend(CRLF);
  }

  lemma {:induction false} EncodeBulksAppend(argv: Argv, a: bytes)
    ensures EncodeBulks(argv + [a]) == EncodeBulks(argv) + EncodeBulk(a)
    decreases |argv|
  {
    if argv == [] {
      assert argv + [a] == [a];
    } else {
      assert (argv + [a])[1..] == argv[1..] + [a];
      EncodeBulksAppend(argv[1..], a);
    }
  }

  /** Serialize a command into the outbox. */
  method SendOnly(outbox: ByteBuf, argv: Argv)
    requires Encodable(argv)
    modifies outbox
    ensures outbox.data == old(outbox.data) + Encode(argv)
  {
    hide EncodeBulk, Print;
    WriteHeader(outbox, STAR, |argv|);
    ghost var header := outbox.data;
    for k := 0 to |argv|
      invariant outbox.data == header + EncodeBulks(argv[..k])
    {
      WriteBulk(outbox, argv[k]);
      assert argv[..k + 1] == argv[..k] + [argv[k]];
      EncodeBulksAppend(argv[..k], argv[k]);
    }
    assert argv[..|argv|] == argv;
  }

  /** A body followed by CR LF, starting where its header announces it. */
  lemma BodyReads(b: bytes, cursor: nat, body: nat, a: bytes)
    requires cursor < body && body + |a| + 2 <= |b| && b[cursor] == DOLLAR
    requires IntLineAt(b, cursor + 1) == IntLine(|a|, body)
    requires b[body..body + |a| + 2] == a + CRLF
    ensures BulkAt(b, cursor) == Bulk(a, body + |a| + 2)
  {
    hide IntLineAt;
    var tail := b[body..body + |a| + 2];
    assert b[body..body + |a|] == tail[..|a|] == a;
    assert b[body + |a|] == tail[|a|] && b[body + |a| + 1] == tail[|a| + 1];
  }

  /** One serialized bulk string reads back as itself. */
  lemma BulkReads(pre: bytes, a: bytes, rest: bytes)
    requires |a| <= I64_MAX
    ensures BulkAt(pre + EncodeBulk(a) + rest, |pre|) == Bulk(a, |pre + EncodeBulk(a)|)
  {
    hide Print, IntLineAt, BulkAt;
    var b := pre + EncodeBulk(a) + rest;
    var lead := pre + [DOLLAR];
    var tail := a + CRLF + rest;
    assert b == lead + Print(|a|) + CRLF + tail;
    PrintedLineReads(lead, |a|, tail);
    var body := |lead| + |Print(|a|)| + 2;
    assert b[body..body + |a| + 2] == a + CRLF;
    BodyReads(b, |pre|, body, a);
  }

  lemma {:induction false} BulksRoundTrip(pre: bytes, argv: Argv, rest: bytes)
    requires Encodable(argv)
    ensures BulksAt(pre + EncodeBulks(argv) + rest, |pre|, |argv|) == Bulks(argv, |pre + EncodeBulks(argv)|)
    decreases |argv|
  {
    hide BulkAt, EncodeBulk;
    if argv == [] {
    } else {
      var a, others := argv[0], argv[1..];
      var b := pre + EncodeBulks(argv) + rest;
      var next := pre + EncodeBulk(a);
      assert b == pre + EncodeBulk(a) + (EncodeBulks(others) + rest);
      BulkReads(pre, a, EncodeBulks(others) + rest);
      assert b == next + EncodeBulks(others) + rest;
      BulksRoundTrip(next, others, rest);
      assert argv == [a] + others;
    }
  }

  /** Parsing a serialized command, whatever follows it, gives the command back and uses exactly its bytes. */
  lemma RequestRoundTrip(argv: Argv, rest: bytes)
    requires Encodable(argv)
    ensures Parse(Encode(argv) + rest) == Parsed(argv, |Encode(argv)|)
  {
    var b := Encode(argv) + rest;
    var pre := [STAR] + Print(|argv|) + CRLF;
    assert b == [STAR] + Print(|argv|) + CRLF + (EncodeBulks(argv) + rest);
    PrintedLineReads([STAR], |argv|, EncodeBulks(argv) + rest);
    assert b == pre + EncodeBulks(argv) + rest;
    BulksRoundTrip(pre, argv, rest);
  }

  /** Every proper prefix of a serialized command is reported incomplete. */
  lemma RequestPrefixIncomplete(argv: Argv, k: nat)
    requires Encodable(argv) && k < |Encode(argv)|
    ensures Parse(Encode(argv)[..k]).Incomplete?
  {
    hide Parse;
    var e := Encode(argv);
    RequestRoundTrip(argv, []);
    assert e + [] == e && e[..k] + e[k..] == e;
    if !Parse(e[..k]).Incomplete? {
      ParseStable(e[..k], e[k..]);
    }
  }

  function EncodeAll(cmds: seq<Argv>): bytes {
    if cmds == [] then [] else Encode(cmds[0]) + EncodeAll(cmds[1..])
  }

  predicate AllEncodable(cmds: seq<Argv>) { forall i :: 0 <= i < |cmds| ==> Encodable(cmds[i]) }

  /** A pipeline of serialized commands drains to exactly those commands, with nothing left over. */
  lemma {:induction false} PipelineRoundTrip(cmds: seq<Argv>)
    requires AllEncodable(cmds)
    ensures Drain(EncodeAll(cmds)) == Drained(cmds, [], false)
    decreases |cmds|
  {
    if cmds == [] {
    } else {
      RequestRoundTrip(cmds[0], EncodeAll(cmds[1..]));
      assert EncodeAll(cmds)[|Encode(cmds[0])|..] == EncodeAll(cmds[1..]);
      PipelineRoundTrip(cmds[1..]);
      assert [cmds[0]] + cmds[1..] == cmds;
    }
  }

  lemma {:induction false} EncodeAllAppend(cmds: seq<Argv>, argv: Argv)
    ensures EncodeAll(cmds + [argv]) == EncodeAll(cmds) + Encode(argv)
    decreases |cmds|
  {
    if cmds == [] {
      assert cmds + [argv] == [argv];
    } else {
      assert (cmds + [argv])[1..] == cmds[1..] + [argv];
      EncodeAllAppend(cmds[1..], argv);
    }
  }

  // ----- the inline form

  /** An inline command line parses to its words. */
  lemma InlineRoundTrip(words: Argv, rest: bytes)
    requires forall k :: 0 <= k < |words| ==> Words.IsWord(words[k], BLANKS)
    requires words != [] && Words.IsWord(words[0], BLANKS) && words[0][0] != STAR && Clean(Words.Join(words))
    ensures Parse(Words.Join(words) + CRLF + rest) == Parsed(words, |Words.Join(words)| + 2)
  {
    var line := Words.Join(words);
    var b := line + CRLF + rest;
    assert line[0] == words[0][0];
    assert b == [] + line + CRLF + rest;
    LineEnds([], line, rest);
    assert b[..|line|] == line;
    Words.FieldsOfJoin(words, BLANKS);
  }
}
