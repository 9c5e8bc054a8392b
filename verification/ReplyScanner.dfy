/**
 The reply scanner: how many bytes the first complete reply occupies, for replies nested to any depth, and the
 reply writers it must agree with.
 */
module ReplyScanner {
  import opened Bytes
  import opened Options
  import opened Decimal
  import opened RespParser

  // ----- what the scanner computes

  /** The end of the reply that starts at `start`; None when it is not all there (or can never be). */
  function Scan(b: bytes, start: nat): (r: Option<nat>)
    ensures r.Some? ==> start + 3 <= r.value <= |b|
    decreases |b| - start, 0
  {
    if start >= |b| then None
    else if b[start] == PLUS || b[start] == MINUS || b[start] == COLON then
      match FirstCrlf(b, start + 1)
      case None => None
      case Some(crlf) => Some(crlf + 2)
    else if b[start] == DOLLAR then
      match SizeLine(b, start)
      case None => None
      case Some((n, body)) =>
        if n < 0 then Some(body) else if body + n + 2 > |b| then None else Some(body + n + 2)
    else if b[start] == STAR then
      match SizeLine(b, start)
      case None => None
      case Some((n, body)) => if n < 0 then Some(body) else ScanMany(b, body, n)
    else None
  }

  /** The end of the n replies that start at `cursor`. */
  function ScanMany(b: bytes, cursor: nat, n: nat): (r: Option<nat>)
    requires cursor <= |b|
    ensures r.Some? ==> cursor <= r.value <= |b|
    decreases |b| - cursor, 1
  {
    if n == 0 then Some(cursor)
    else match Scan(b, cursor)
      case None => None
      case Some(next) => ScanMany(b, next, n - 1)
  }

  /** The size in the header of the reply at `start`, and the position just after that header. */
  function SizeLine(b: bytes, start: nat): (r: Option<(int, nat)>)
    ensures r.Some? ==> start + 3 <= r.value.1 <= |b|
  {
    match FirstCrlf(b, start + 1)
    case None => None
    case Some(crlf) =>
      match ParseChecked(b[start + 1..crlf])
      case None => None
      case Some(n) => Some((n, crlf + 2))
  }

  /** The recursive scanner of the program. */
  method ScanOne(b: bytes, start: nat) returns (r: Option<nat>)
    ensures r == Scan(b, start)
    decreases |b| - start
  {
    hide FirstCrlf, ParseChecked;
    if start >= |b| {
      return None;
    }
    if b[start] == PLUS || b[start] == MINUS || b[start] == COLON {
      var crlf := FindCrlf(b, start + 1);
      return if crlf.None? then None else Some(crlf.value + 2);
    }
    if b[start] != DOLLAR && b[start] != STAR {
      return None;
    }
    var crlf := FindCrlf(b, start + 1);
    if crlf.None? {
      return None;
    }
    var size := ParseInt(b[start + 1..crlf.value]);
    if size.None? {
      return None;
    }
    var n := size.value;
    if n < 0 {
      return Some(crlf.value + 2);
    }
    if b[start] == DOLLAR {
      var bodyEnd := crlf.value + 2 + n + 2;
      return if bodyEnd > |b| then None else Some(bodyEnd);
    }
    var cursor: nat := crlf.value + 2;
    for i: nat := 0 to n
      invariant start < cursor <= |b|
      invariant Scan(b, start) == ScanMany(b, cursor, n - i)
    {
      var next := ScanOne(b, cursor);
      if next.None? {
        return None;
      }
      cursor := next.value;
    }
    return Some(cursor);
  }

  // ----- a complete reply stays complete

  lemma SizeLineStable(b: bytes, x: bytes, start: nat)
    requires SizeLine(b, start).Some?
    ensures SizeLine(b + x, start) == SizeLine(b, start)
  {
    CrlfStable(b, x, start + 1);
    var crlf := FirstCrlf(b, start + 1).value;
    assert (b + x)[start + 1..crlf] == b[start + 1..crlf];
  }

  lemma {:induction false} ScanStable(b: bytes, x: bytes, start: nat)
    requires Scan(b, start).Some?
    ensures Scan(b + x, start) == Scan(b, start)
    decreases |b| - start, 0
  {
    assert (b + x)[start] == b[start];
    if b[start] == DOLLAR || b[start] == STAR {
      SizeLineStable(b, x, start);
      hide SizeLine;
      var (n, body) := SizeLine(b, start).value;
      if b[start] == STAR && n >= 0 {
        ScanManyStable(b, x, body, n);
      }
    } else {
      CrlfStable(b, x, start + 1);
    }
  }

  lemma {:induction false} ScanManyStable(b: bytes, x: bytes, cursor: nat, n: nat)
    requires cursor <= |b| && ScanMany(b, cursor, n).Some?
    ensures ScanMany(b + x, cursor, n) == ScanMany(b, cursor, n)
    decreases |b| - cursor, 1
  {
    if n == 0 {
    } else {
      ScanStable(b, x, cursor);
      ScanManyStable(b, x, Scan(b, cursor).value, n - 1);
    }
  }

  // ----- only the reply itself is looked at

  lemma {:induction false} CrlfNeedsNoMore(b: bytes, x: bytes, from: nat)
    requires FirstCrlf(b + x, from).Some? && FirstCrlf(b + x, from).value + 2 <= |b|
    ensures FirstCrlf(b, from) == FirstCrlf(b + x, from)
    decreases |b| - from
  {
    assert (b + x)[from] == b[from] && (b + x)[from + 1] == b[from + 1];
    if !(b[from] == CR && b[from + 1] == LF) {
      CrlfNeedsNoMore(b, x, from + 1);
    }
  }

  lemma SizeLineNeedsNoMore(b: bytes, x: bytes, start: nat)
    requires SizeLine(b + x, start).Some? && SizeLine(b + x, start).value.1 <= |b|
    ensures SizeLine(b, start) == SizeLine(b + x, start)
  {
    CrlfNeedsNoMore(b, x, start + 1);
    var crlf := FirstCrlf(b, start + 1).value;
    assert (b + x)[start + 1..crlf] == b[start + 1..crlf];
  }

  /** A reply is recognised as soon as its last byte is there. */
  lemma {:induction false} ScanNeedsNoMore(b: bytes, x: bytes, start: nat)
    requires Scan(b + x, start).Some? && Scan(b + x, start).value <= |b|
    ensures Scan(b, start) == Scan(b + x, start)
    decreases |b| - start, 0
  {
    hide FirstCrlf, SizeLine;
    assert (b + x)[start] == b[start];
    if b[start] == DOLLAR || b[start] == STAR {
      ManyGoForward(b + x, start);
      SizeLineNeedsNoMore(b, x, start);
      var (n, body) := SizeLine(b, start).value;
      if b[start] == STAR && n >= 0 {
        ScanManyNeedsNoMore(b, x, body, n);
      }
    } else {
      CrlfNeedsNoMore(b, x, start + 1);
    }
  }

  lemma {:induction false} ScanManyNeedsNoMore(b: bytes, x: bytes, cursor: nat, n: nat)
    requires cursor <= |b| && ScanMany(b + x, cursor, n).Some? && ScanMany(b + x, cursor, n).value <= |b|
    ensures ScanMany(b, cursor, n) == ScanMany(b + x, cursor, n)
    decreases |b| - cursor, 1
  {
    if n == 0 {
    } else {
      ScanNeedsNoMore(b, x, cursor);
      ScanManyNeedsNoMore(b, x, Scan(b, cursor).value, n - 1);
    }
  }

  /** The end lies behind the header. */
  lemma ManyGoForward(b: bytes, start: nat)
    requires start < |b| && (b[start] == DOLLAR || b[start] == STAR) && Scan(b, start).Some?
    ensures SizeLine(b, start).Some? && SizeLine(b, start).value.1 <= Scan(b, start).value
  {
    hide SizeLine;
  }

  /** Exactly one complete reply, of whatever kind. */
  predicate IsWhole(b: bytes) {
    Scan(b, 0) == Some(|b|)
  }

  // ----- several replies in a row

  /** The first n replies of these bytes, as scanning one after another cuts them off. */
  function Received(b: bytes, n: nat): Option<seq<bytes>>
    decreases n
  {
    if n == 0 then Some([])
    else
      match Scan(b, 0)
      case None => None
      case Some(end) =>
        match Received(b[end..], n - 1)
        case None => None
        case Some(later) => Some([b[..end]] + later)
  }

  lemma {:induction false} ReceivedIsFront(b: bytes, n: nat)
    requires Received(b, n).Some?
    ensures var ps := Received(b, n).value;
      |ps| == n && |Concat(ps)| <= |b| && b == Concat(ps) + b[|Concat(ps)|..]
    decreases n
  {
    hide Scan;
    if n == 0 {
    } else {
      var end := Scan(b, 0).value;
      ReceivedIsFront(b[end..], n - 1);
      var ps := Received(b[end..], n - 1).value;
      assert ([b[..end]] + ps)[1..] == ps;
      assert b == b[..end] + b[end..];
    }
  }

  /** A further reply is the first one of what is left, if there is one. */
  lemma {:induction false} ReceivedMore(b: bytes, n: nat)
    requires Received(b, n).Some?
    ensures var ps := Received(b, n).value;
      && |Concat(ps)| <= |b|
      && var left := b[|Concat(ps)|..];
        Received(b, n + 1) == match Scan(left, 0) case None => None case Some(end) => Some(ps + [left[..end]])
    decreases n
  {
    hide Scan;
    ReceivedIsFront(b, n);
    if n == 0 {
      assert b[0..] == b;
      if Scan(b, 0).Some? {
        assert Received(b[Scan(b, 0).value..], 0) == Some([]);
        assert [b[..Scan(b, 0).value]] + [] == [] + [b[..Scan(b, 0).value]];
      }
    } else {
      var end := Scan(b, 0).value;
      ReceivedMore(b[end..], n - 1);
      var ps := Received(b[end..], n - 1).value;
      assert Received(b, n).value == [b[..end]] + ps;
      assert ([b[..end]] + ps)[1..] == ps;
      ReceivedIsFront(b[end..], n - 1);
      assert b[end..][|Concat(ps)|..] == b[|b[..end] + Concat(ps)|..];
      forall p ensures ([b[..end]] + ps) + [p] == [b[..end]] + (ps + [p]) {
      }
    }
  }

  lemma {:induction false} FewerReceived(b: bytes, k: nat, n: nat)
    requires k <= n && Received(b, n).Some?
    ensures Received(b, k).Some?
    decreases n
  {
    hide Scan;
    if k > 0 {
      FewerReceived(b[Scan(b, 0).value..], k - 1, n - 1);
    }
  }

  // ----- replies and their wire form

  datatype Reply =
    | Simple(line: bytes)
    | Error(line: bytes)
    | Integer(n: int)
    | BulkString(body: bytes)
    | NullBulk
    | Array(elems: seq<Reply>)
    | NullArray

  /** Status and error lines must not contain the line end; sizes and integers must fit 64 bits. */
  predicate WellFormed(r: Reply) {
    match r
    case Simple(line) => Clean(line)
    case Error(line) => Clean(line)
    case Integer(n) => -I64_MAX <= n <= I64_MAX
    case BulkString(body) => |body| <= I64_MAX
    case Array(elems) => |elems| <= I64_MAX && forall e <- elems :: WellFormed(e)
    case _ => true
  }

  function EncodeReply(r: Reply): (b: bytes)
    ensures |b| > 0
    decreases r, 0
  {
    match r
    case Simple(line) => [PLUS] + line + CRLF
    case Error(line) => [MINUS] + line + CRLF
    case Integer(n) => [COLON] + Print(n) + CRLF
    case BulkString(body) => EncodeBulk(body)
    case NullBulk => [DOLLAR] + Print(-1) + CRLF
    case Array(elems) => [STAR] + Print(|elems|) + CRLF + EncodeReplies(elems)
    case NullArray => [STAR] + Print(-1) + CRLF
  }

  function EncodeReplies(rs: seq<Reply>): bytes
    decreases rs
  {
    if rs == [] then [] else EncodeReply(rs[0]) + EncodeReplies(rs[1..])
  }

  lemma PrintedSizeReads(pre: bytes, kind: byte, n: int, rest: bytes)
    requires -I64_MAX <= n <= I64_MAX
    ensures SizeLine(pre + [kind] + Print(n) + CRLF + rest, |pre|)
         == Some((n, |pre + [kind] + Print(n) + CRLF|))
  {
    hide Print, ParseChecked, FirstCrlf;
    var lead := pre + [kind];
    var b := lead + Print(n) + CRLF + rest;
    PrintIsClean(n);
    LineEnds(lead, Print(n), rest);
    assert b[|lead|..|lead| + |Print(n)|] == Print(n);
    ReadersUndoPrint(n);
  }

  lemma LineReplyScans(pre: bytes, kind: byte, line: bytes, rest: bytes)
    requires kind == PLUS || kind == MINUS || kind == COLON
    requires Clean(line)
    ensures Scan(pre + ([kind] + line + CRLF) + rest, |pre|) == Some(|pre + ([kind] + line + CRLF)|)
  {
    hide FirstCrlf;
    var b := pre + ([kind] + line + CRLF) + rest;
    var lead := pre + [kind];
    assert b == lead + line + CRLF + rest;
    assert b[|pre|] == kind;
    LineEnds(lead, line, rest);
  }

  lemma SizedReplyScans(pre: bytes, kind: byte, n: int, rest: bytes)
    requires kind == DOLLAR || kind == STAR
    requires -I64_MAX <= n <= I64_MAX
    ensures var head := [kind] + Print(n) + CRLF;
            var b := pre + head + rest;
            && (n < 0 ==> Scan(b, |pre|) == Some(|pre + head|))
            && (n >= 0 && kind == DOLLAR && n + 2 <= |rest| ==> Scan(b, |pre|) == Some(|pre + head| + n + 2))
            && (n >= 0 && kind == STAR ==> Scan(b, |pre|) == ScanMany(b, |pre + head|, n))
  {
    hide Print;
    var head := [kind] + Print(n) + CRLF;
    var b := pre + head + rest;
    assert b == pre + [kind] + Print(n) + CRLF + rest;
    assert b[|pre|] == kind;
    PrintedSizeReads(pre, kind, n, rest);
    hide SizeLine;
  }

  lemma BulkScans(pre: bytes, body: bytes, rest: bytes)
    requires |body| <= I64_MAX
    ensures Scan(pre + EncodeBulk(body) + rest, |pre|) == Some(|pre + EncodeBulk(body)|)
  {
    hide Scan, Print;
    var head := [DOLLAR] + Print(|body|) + CRLF;
    assert EncodeBulk(body) == head + (body + CRLF);
    assert pre + EncodeBulk(body) + rest == pre + head + (body + CRLF + rest);
    SizedReplyScans(pre, DOLLAR, |body|, body + CRLF + rest);
  }

  lemma ArrayScans(pre: bytes, elems: seq<Reply>, rest: bytes)
    requires |elems| <= I64_MAX
    requires var lead := pre + ([STAR] + Print(|elems|) + CRLF);
      ScanMany(lead + EncodeReplies(elems) + rest, |lead|, |elems|) == Some(|lead + EncodeReplies(elems)|)
    ensures Scan(pre + EncodeReply(Array(elems)) + rest, |pre|) == Some(|pre + EncodeReply(Array(elems))|)
  {
    hide Scan, ScanMany, Print, EncodeReplies;
    var head := [STAR] + Print(|elems|) + CRLF;
    SizedReplyScans(pre, STAR, |elems|, EncodeReplies(elems) + rest);
    assert EncodeReply(Array(elems)) == head + EncodeReplies(elems);
    assert pre + EncodeReply(Array(elems)) + rest == pre + head + (EncodeReplies(elems) + rest);
    assert pre + EncodeReply(Array(elems)) + rest == (pre + head) + EncodeReplies(elems) + rest;
  }

  /** Scanning any reply, whatever follows it, finds exactly its end. */
  lemma {:induction false} ReplyRoundTrip(pre: bytes, r: Reply, rest: bytes)
    requires WellFormed(r)
    ensures Scan(pre + EncodeReply(r) + rest, |pre|) == Some(|pre + EncodeReply(r)|)
    decreases r, 1
  {
    hide Scan, ScanMany, Print, EncodeReplies, EncodeBulk;
    match r {
      case Simple(line) => LineReplyScans(pre, PLUS, line, rest);
      case Error(line) => LineReplyScans(pre, MINUS, line, rest);
      case Integer(n) =>
        PrintIsClean(n);
        LineReplyScans(pre, COLON, Print(n), rest);
      case BulkString(body) =>
        BulkScans(pre, body, rest);
      case NullBulk => SizedReplyScans(pre, DOLLAR, -1, rest);
      case NullArray => SizedReplyScans(pre, STAR, -1, rest);
      case Array(elems) =>
        RepliesRoundTrip(pre + ([STAR] + Print(|elems|) + CRLF), elems, rest);
        ArrayScans(pre, elems, rest);
    }
  }

  lemma {:induction false} RepliesRoundTrip(pre: bytes, rs: seq<Reply>, rest: bytes)
    requires forall r <- rs :: WellFormed(r)
    ensures ScanMany(pre + EncodeReplies(rs) + rest, |pre|, |rs|) == Some(|pre + EncodeReplies(rs)|)
    decreases rs, 0
  {
    hide Scan, EncodeReply;
    if rs == [] {
    } else {
      var r, others := rs[0], rs[1..];
      var b := pre + EncodeReplies(rs) + rest;
      var next := pre + EncodeReply(r);
      assert b == pre + EncodeReply(r) + (EncodeReplies(others) + rest);
      ReplyRoundTrip(pre, r, EncodeReplies(others) + rest);
      assert b == next + EncodeReplies(others) + rest;
      RepliesRoundTrip(next, others, rest);
    }
  }

  /** Every proper prefix of a reply is reported incomplete. */
  lemma ReplyPrefixIncomplete(r: Reply, k: nat)
    requires WellFormed(r) && k < |EncodeReply(r)|
    ensures Scan(EncodeReply(r)[..k], 0).None?
  {
    hide Scan, EncodeReply;
    var e := EncodeReply(r);
    ReplyRoundTrip([], r, []);
    assert [] + e + [] == e && e[..k] + e[k..] == e;
    if Scan(e[..k], 0).Some? {
      ScanStable(e[..k], e[k..], 0);
    }
  }

  // ----- the reply writers of the local commands

  /** Write one bulk reply: the header is formatted on the stack, then header and body are written. */
  method WriteBulkReply(w: ByteBuf, body: bytes)
    requires |body| <= I64_MAX
    modifies w
    ensures w.data == old(w.data) + EncodeReply(BulkString(body))
  {
    var hdr := new byte[24](_ => 0);
    hdr[0] := DOLLAR;
    var n := FormatIntInto(hdr, 1, |body|);
    FormattedHeader(hdr[..], DOLLAR, Print(|body|));
    w.Extend(hdr[..1 + n]);
    w.Extend(CRLF);
    w.Extend(body);
    w.Extend(CRLF);
  }

  lemma FormattedHeader(hdr: bytes, kind: byte, digits: bytes)
    requires 1 + |digits| <= |hdr| && hdr == [kind] + digits + hdr[1 + |digits|..]
    ensures hdr[..1 + |digits|] == [kind] + digits
  {
  }

  method WriteIntReply(w: ByteBuf, n: int)
    requires -TWO63 <= n <= I64_MAX
    modifies w
    ensures w.data == old(w.data) + ([COLON] + Written(n) + CRLF)
    ensures w.data == old(w.data) + EncodeReply(Integer(n)) <==> n != -TWO63
  {
    var buf := new byte[24](_ => 0);
    buf[0] := COLON;
    var written := FormatIntInto(buf, 1, n);
    FormattedHeader(buf[..], COLON, Written(n));
    ghost var was := w.data;
    w.Extend(buf[..1 + written]);
    w.Extend(CRLF);
    assert w.data == was + ([COLON] + Written(n) + CRLF);
    if n == -TWO63 {
      PrintDenotes(n);
      assert Print(n) == [MINUS] + Digits(TWO63);
      assert |was + EncodeReply(Integer(n))| > |w.data|;
    }
  }

  /** The header of an n-element array reply; a negative n writes the null array. */
  method WriteArrayHeaderReply(w: ByteBuf, n: int)
    requires -TWO63 <= n <= I64_MAX
    modifies w
    ensures n < 0 ==> w.data == old(w.data) + EncodeReply(NullArray)
    ensures forall elems: seq<Reply> :: |elems| == n ==>
              w.data + EncodeReplies(elems) == old(w.data) + EncodeReply(Array(elems))
  {
    hide EncodeReplies, Digits, Written;
    ghost var was := w.data;
    if n == 0 {
      w.Extend([STAR, ZERO, CR, LF]);
      SmallPrints();
      assert [STAR, ZERO, CR, LF] == [STAR] + [ZERO] + CRLF;
    } else if n < 0 {
      w.Extend([STAR, MINUS, ZERO + 1, CR, LF]);
      SmallPrints();
      assert [STAR, MINUS, ZERO + 1, CR, LF] == [STAR] + ([MINUS] + [ZERO + 1]) + CRLF;
      return;
    } else {
      var buf := new byte[24](_ => 0);
      buf[0] := STAR;
      var written := FormatIntInto(buf, 1, n);
      WrittenIsPrint(n);
      FormattedHeader(buf[..], STAR, Print(n));
      w.Extend(buf[..1 + written]);
      w.Extend(CRLF);
    }
    ghost var head := [STAR] + Print(n) + CRLF;
    assert w.data == was + head;
    forall elems: seq<Reply> | |elems| == n
      ensures w.data + EncodeReplies(elems) == was + EncodeReply(Array(elems))
    {
      assert (was + head) + EncodeReplies(elems) == was + (head + EncodeReplies(elems));
    }
  }

  lemma SmallPrints()
    ensures Print(0) == [ZERO] && Print(-1) == [MINUS] + [ZERO + 1]
  {
  }

  lemma WrittenIsPrint(n: int)
    requires n != -TWO63
    ensures Written(n) == Print(n)
  {
  }
}
