/**
 The connection to the upstream: requests gather in an outbox until they are flushed, replies are read one at a time.
 The upstream may refuse to be connected to, and the network may break in the middle of anything.
 */
module Upstream {
  import opened Bytes
  import opened Options
  import opened Decimal
  import opened RespParser
  import opened ReplyScanner
  import opened Output

  /**
   What surrounds a client's connection: which names are served locally; the reply to the last command of a history
   of non-empty commands when it is local; the upstream's reply to the last of the requests it has received; the
   error for a name nobody serves; and whether there is an upstream at all.
   */
  datatype Env = Env(
    isLocal: bytes -> bool,
    local: seq<Argv> -> bytes,
    answer: seq<Argv> -> Reply,
    unknown: bytes -> bytes,
    proxied: bool)

  /**
   What the network does, by the number of the attempt: whether it connects; after how many bytes a write breaks, if
   it does; how many bytes a read brings at most, none if the connection is closed or broken.
   */
  datatype Network = Network(connects: nat -> bool, breaks: nat -> Option<nat>, arrives: nat -> nat)

  ghost predicate ReadsWork(net: Network) {
    forall k: nat :: net.arrives(k) > 0
  }

  ghost predicate NeverFails(net: Network) {
    ReadsWork(net) && forall k: nat :: net.connects(k) && net.breaks(k) == None
  }

  /** The bytes an upstream that has served `seen` sends for a further batch. */
  function Answers(env: Env, seen: seq<Argv>, batch: seq<Argv>): seq<Reply>
    decreases |batch|
  {
    if batch == [] then []
    else [env.answer(seen + [batch[0]])] + Answers(env, seen + [batch[0]], batch[1..])
  }

  /** The upstream: it parses whatever arrives and queues one reply per request on the connection they came by. */
  class Server {
    const env: Env
    const net: Network
    var tries: nat
    var seen: seq<Argv>
    var wire: bytes

    constructor (env: Env, net: Network)
      ensures this.env == env && this.net == net && seen == [] && wire == [] && tries == 0
    {
      this.env, this.net := env, net;
      tries, seen, wire := 0, [], [];
    }

    method Connect() returns (ok: bool)
      modifies this`tries
      ensures ok == net.connects(old(tries)) && tries == old(tries) + 1
    {
      ok := net.connects(tries);
      tries := tries + 1;
    }

    /** The connection is gone, and with it whatever was on its way. */
    method Drop()
      modifies this`wire
      ensures wire == []
    {
      wire := [];
    }

    /** A write of all these bytes; when it breaks, the upstream has got the first of them. */
    method Receive(data: bytes) returns (ok: bool)
      modifies this
      ensures tries == old(tries) + 1 && (ok <==> net.breaks(old(tries)).None?)
      ensures ok ==> seen == old(seen) + Drain(data).cmds
      ensures ok ==> wire == old(wire) + EncodeReplies(Answers(env, old(seen), Drain(data).cmds))
      ensures !ok ==> wire == [] && exists k :: 0 <= k <= |data| && seen == old(seen) + Drain(data[..k]).cmds
    {
      var broken := net.breaks(tries);
      tries := tries + 1;
      if broken.Some? {
        var k := if broken.value <= |data| then broken.value else |data|;
        seen := seen + Drain(data[..k]).cmds;
        Drop();
        return false;
      }
      wire := wire + EncodeReplies(Answers(env, seen, Drain(data).cmds));
      seen := seen + Drain(data).cmds;
      return true;
    }

    /** Some bytes that have arrived; none if there will be no more. */
    method Read() returns (piece: bytes)
      modifies this`tries, this`wire
      ensures piece == Arrived(net, old(tries), old(wire)) && piece + wire == old(wire)
      ensures tries == old(tries) + 1
    {
      piece := Arrived(net, tries, wire);
      tries := tries + 1;
      wire := wire[|piece|..];
    }
  }

  const READ_FAILED: bytes := // "-ERR upstream read: "
    [45, 69, 82, 82, 32, 117, 112, 115, 116, 114, 101, 97, 109, 32] + [114, 101, 97, 100, 58, 32]

  /** What one read brings. */
  function Arrived(net: Network, try: nat, wire: bytes): bytes {
    if net.arrives(try) <= |wire| then wire[..net.arrives(try)] else wire
  }

  /** The outcome of reading one reply, and what is then in the buffer, on its way, and the number of the next try. */
  datatype Outcome = Outcome(reply: Option<bytes>, buf: bytes, wire: bytes, tries: nat)

  function ReadFrom(net: Network, open: bool, try: nat, buf: bytes, wire: bytes): Outcome
    decreases |wire|
  {
    if Scan(buf, 0).Some? then Outcome(Some(buf[..Scan(buf, 0).value]), buf[Scan(buf, 0).value..], wire, try)
    else if !open then Outcome(None, buf, wire, try)
    else
      var piece := Arrived(net, try, wire);
      if piece == [] then Outcome(None, buf, wire, try + 1)
      else ReadFrom(net, open, try + 1, buf + piece, wire[|piece|..])
  }

  /** However the bytes arrive, the first complete reply is cut off, if it does arrive. */
  lemma {:induction false} ReadFromMeans(net: Network, open: bool, try: nat, buf: bytes, wire: bytes)
    ensures var o := ReadFrom(net, open, try, buf, wire);
      match o.reply
      case Some(r) => Scan(buf + wire, 0) == Some(|r|) && buf + wire == r + (o.buf + o.wire)
      case None => o.buf + o.wire == buf + wire && Scan(o.buf, 0).None?
    ensures ReadsWork(net) && (open || wire == []) && Scan(buf + wire, 0).Some? ==>
      ReadFrom(net, open, try, buf, wire).reply.Some?
    decreases |wire|
  {
    hide Scan;
    if Scan(buf, 0).Some? {
      SplitAtEnd(buf, wire);
    } else {
      if Scan(buf + wire, 0).Some? {
        NotAllThere(buf, wire);
      }
      var piece := Arrived(net, try, wire);
      if open && piece != [] {
        var rest := wire[|piece|..];
        assert wire == piece + rest && (buf + piece) + rest == buf + wire;
        ReadFromMeans(net, open, try + 1, buf + piece, rest);
      }
    }
  }

  class UpstreamConn {
    const server: Server
    const outbox: ByteBuf
    const buf: ByteBuf
    var open: bool

    constructor (server: Server)
      requires server.wire == []
      ensures this.server == server && fresh(outbox) && fresh(buf) && outbox.data == [] && buf.data == []
      ensures Valid() && !open
    {
      this.server := server;
      outbox := new ByteBuf();
      buf := new ByteBuf();
      open := false;
    }

    /** Without a connection nothing is on its way. */
    ghost predicate Valid()
      reads this, server
    {
      outbox != buf && (open || server.wire == [])
    }

    /** Connect unless there is a connection. */
    method Ensure() returns (ok: bool)
      requires Valid()
      modifies this`open, server`tries
      ensures Valid() && ok == open && open == (old(open) || server.net.connects(old(server.tries)))
      ensures server.tries == old(server.tries) + if old(open) then 0 else 1
    {
      if !open {
        open := server.Connect();
      }
      return open;
    }

    method Reset()
      modifies this`open, server`wire
      ensures !open && server.wire == []
    {
      server.Drop();
      open := false;
    }

    /**
     Write every buffered request in one go. If there is no connection to be had they stay where they are; if the
     write breaks they are gone, and the upstream may have served the first of them.
     */
    method FlushSend() returns (ok: bool)
      requires Valid()
      modifies this`open, server, outbox
      ensures Valid() && (NeverFails(server.net) ==> ok)
      ensures ok <==> old(outbox.data) == [] || old(Connects() && Writes())
      ensures ok ==> Flushed(old(outbox.data), old(server.seen), old(server.wire))
      ensures !ok ==> !open && server.wire == []
      ensures !ok && !old(Connects()) ==> outbox.data == old(outbox.data) && server.seen == old(server.seen)
      ensures !ok && !old(Connects()) ==> server.tries == old(server.tries) + 1
      ensures ok && old(outbox.data) != [] ==> server.tries == old(server.tries) + if old(open) then 1 else 2
      ensures !ok && old(Connects()) ==> outbox.data == [] && SawSome(old(outbox.data), old(server.seen))
    {
      hide Drain, EncodeReplies, Answers;
      if outbox.data == [] {
        NothingToServe(server.env, server.seen);
        return true;
      }
      var connected := Ensure();
      if !connected {
        return false;
      }
      var written := server.Receive(outbox.data);
      if !written {
        open := false;
      }
      outbox.Clear();
      return written;
    }

    /** Whether there is or will be a connection. */
    predicate Connects()
      reads this, server
    {
      open || server.net.connects(server.tries)
    }

    /** Whether the write after that goes through. */
    predicate Writes()
      reads this, server
    {
      server.net.breaks(server.tries + if open then 0 else 1).None?
    }

    /** The outbox has gone to the upstream, which has served all of it. */
    ghost predicate Flushed(sent: bytes, seen: seq<Argv>, wire: bytes)
      reads this, server, outbox
    {
      && outbox.data == [] && (sent != [] ==> open)
      && server.seen == seen + Drain(sent).cmds
      && server.wire == wire + EncodeReplies(Answers(server.env, seen, Drain(sent).cmds))
    }

    ghost predicate SawSome(sent: bytes, seen: seq<Argv>)
      reads server
    {
      exists k :: 0 <= k <= |sent| && server.seen == seen + Drain(sent[..k]).cmds
    }

    /**
     Read until one complete reply is buffered, and split it off. If that fails, what has been read so far stays in
     the buffer.
     */
    method ReadOneReply() returns (reply: Option<bytes>)
      requires Valid()
      modifies server`tries, server`wire, buf
      ensures Valid()
      ensures Outcome(reply, buf.data, server.wire, server.tries)
        == ReadFrom(server.net, open, old(server.tries), old(buf.data), old(server.wire))
      ensures var all := old(buf.data + server.wire);
        match reply
        case Some(r) => Scan(all, 0) == Some(|r|) && all == r + (buf.data + server.wire)
        case None => buf.data + server.wire == all && Scan(buf.data, 0).None?
      ensures ReadsWork(server.net) && Scan(old(buf.data + server.wire), 0).Some? ==> reply.Some?
    {
      hide Scan, Arrived;
      ReadFromMeans(server.net, open, server.tries, buf.data, server.wire);
      while true
        invariant Valid()
        invariant ReadFrom(server.net, open, server.tries, buf.data, server.wire)
          == ReadFrom(server.net, open, old(server.tries), old(buf.data), old(server.wire))
        decreases |server.wire|
      {
        ghost var wire := server.wire;
        var end := ScanOne(buf.data, 0);
        if end.Some? {
          var r := buf.SplitTo(end.value);
          return Some(r);
        }
        if !open {
          return None;
        }
        ghost var had := buf.data;
        var piece := server.Read();
        assert server.wire == wire[|piece|..];
        buf.Extend(piece);
        if piece == [] {
          assert buf.data == had;
          return None;
        }
      }
    }

    /** The next reply goes to the client; or else a line that says why not, and the connection is dropped. */
    method RecvOne(w: Writer) returns (got: bool, ghost piece: bytes)
      requires Valid()
      modifies this`open, server`tries, server`wire, buf, w
      ensures Valid() && IsWhole(piece) && w.All() == old(w.All()) + piece && HeldBack(old(w.sent), w.sent, w.data)
      ensures
        var o := ReadFrom(server.net, old(open), old(server.tries), old(buf.data), old(server.wire));
        && got == o.reply.Some? && buf.data == o.buf && server.tries == o.tries
        && (if got then piece == o.reply.value && server.wire == o.wire && open == old(open) else !open)
      ensures var all := old(buf.data + server.wire);
        if got then Scan(all, 0) == Some(|piece|) && all == piece + (buf.data + server.wire)
        else buf.data <= all && Scan(buf.data, 0).None? && READ_FAILED <= piece
      ensures ReadsWork(server.net) && Scan(old(buf.data + server.wire), 0).Some? ==> got
    {
      hide Scan, IsWhole, ReadFrom;
      var reply := ReadOneReply();
      if reply.Some? {
        WholeFromScan(reply.value, buf.data + server.wire);
        w.Put(reply.value);
        return true, reply.value;
      }
      Reset();
      var why: bytes :| Clean(why);
      LineIsWhole(why);
      w.Put(READ_FAILED + why + CRLF);
      return false, READ_FAILED + why + CRLF;
    }
  }

  lemma NothingToServe(env: Env, seen: seq<Argv>)
    ensures Drain([]).cmds == [] && seen + [] == seen && Answers(env, seen, []) == [] && EncodeReplies([]) == []
  {
  }

  /** An error line is one reply. */
  lemma LineIsWhole(why: bytes)
    requires Clean(why)
    ensures IsWhole(READ_FAILED + why + CRLF)
  {
    hide FirstCrlf;
    var line := READ_FAILED[1..] + why;
    var b := READ_FAILED + why + CRLF;
    assert b == [MINUS] + line + CRLF + [];
    forall i | 0 <= i < |line| - 1 ensures !(line[i] == CR && line[i + 1] == LF) {
      if i >= 19 {
        assert line[i] == why[i - 19] && line[i + 1] == why[i - 18];
      }
    }
    LineEnds([MINUS], line, []);
  }

  /** If a scan of the buffered part succeeds, it has found the end of the first reply. */
  lemma SplitAtEnd(have: bytes, wire: bytes)
    requires Scan(have, 0).Some?
    ensures var end := Scan(have, 0).value;
      end <= |have| && Scan(have + wire, 0) == Some(end) && have + wire == have[..end] + (have[end..] + wire)
  {
    hide Scan;
    ScanStable(have, wire, 0);
  }

  /** As long as the scan fails though a reply is under way, there are bytes still to come. */
  lemma NotAllThere(have: bytes, wire: bytes)
    requires Scan(have, 0).None? && Scan(have + wire, 0).Some?
    ensures wire != []
  {
    hide Scan;
    assert have + [] == have;
  }

  lemma WholeFromScan(r: bytes, later: bytes)
    requires Scan(r + later, 0) == Some(|r|)
    ensures IsWhole(r)
  {
    hide Scan;
    ScanNeedsNoMore(r, later, 0);
  }

  // ----- whose replies a batch gets

  lemma {:induction false} AnswersAre(env: Env, seen: seq<Argv>, batch: seq<Argv>)
    ensures |Answers(env, seen, batch)| == |batch|
    ensures forall i :: 0 <= i < |batch| ==> Answers(env, seen, batch)[i] == env.answer(seen + batch[..i + 1])
    decreases |batch|
  {
    if batch == [] {
    } else {
      var next := seen + [batch[0]];
      AnswersAre(env, next, batch[1..]);
      forall i | 0 <= i < |batch| ensures Answers(env, seen, batch)[i] == env.answer(seen + batch[..i + 1]) {
        if i == 0 {
          assert batch[..1] == [batch[0]];
        } else {
          assert next + batch[1..][..i] == seen + batch[..i + 1];
        }
      }
    }
  }

  /** Each reply in its wire form. */
  function EncodeEach(rs: seq<Reply>): seq<bytes> {
    if rs == [] then [] else [EncodeReply(rs[0])] + EncodeEach(rs[1..])
  }

  /** Well-formed replies are received as they were sent, as many as are asked for. */
  lemma {:induction false} SentIsReceived(rs: seq<Reply>, n: nat)
    requires n <= |rs| && forall r <- rs :: WellFormed(r)
    ensures Received(EncodeReplies(rs), n) == Some(EncodeEach(rs[..n]))
    decreases n
  {
    hide EncodeReply, Scan, WellFormed;
    if n == 0 {
    } else {
      FirstReplyEnds(rs[0], EncodeReplies(rs[1..]));
      assert EncodeReplies(rs)[|EncodeReply(rs[0])|..] == EncodeReplies(rs[1..]);
      SentIsReceived(rs[1..], n - 1);
      assert rs[..n][1..] == rs[1..][..n - 1];
    }
  }

  ghost predicate AnswersWell(env: Env) {
    forall h :: WellFormed(env.answer(h))
  }

  /**
   What a batch of requests collects when these bytes are in the buffer or on their way already, and these requests
   are still in the outbox before its own, on an upstream that has served `seen`.
   */
  function Collected(env: Env, seen: seq<Argv>, have: bytes, left: seq<Argv>, batch: seq<Argv>): Option<seq<bytes>> {
    Received(have + EncodeReplies(Answers(env, seen, left + batch)), |batch|)
  }

  /** The answers the batch asks for. */
  function OwnAnswers(env: Env, seen: seq<Argv>, left: seq<Argv>, batch: seq<Argv>): seq<bytes> {
    EncodeEach(Answers(env, seen + left, batch))
  }

  /**
   A batch is sure to collect its own answers, whatever the upstream answers, exactly when it finds not a byte in the
   buffer or on its way, be it replies to earlier requests or a part of one, and no earlier requests in the outbox.
   */
  lemma OwnAnswersIff(seen: seq<Argv>, have: bytes, left: seq<Argv>, batch: seq<Argv>)
    requires batch != []
    ensures (forall env :: AnswersWell(env) ==>
        Collected(env, seen, have, left, batch) == Some(OwnAnswers(env, seen, left, batch)))
      <==> have == [] && left == []
  {
    hide EncodeReply, Scan, WellFormed;
    if have == [] && left == [] {
      forall env | AnswersWell(env)
        ensures Collected(env, seen, have, left, batch) == Some(OwnAnswers(env, seen, left, batch))
      {
        CollectedFirst(env, seen, left, batch);
        assert seen + left == seen && left + batch == batch && batch[..|batch|] == batch;
        AnswersAre(env, seen, batch);
        assert Answers(env, seen, batch)[..|batch|] == Answers(env, seen, batch);
      }
    } else if have != [] {
      var env := Unlike(have[0]);
      UnlikeIsNot(have[0], env.answer((seen + left) + batch[..1]));
      AnswersAre(env, seen + left, batch);
      var own := OwnAnswers(env, seen, left, batch);
      assert own[0] == EncodeReply(env.answer((seen + left) + batch[..1]));
      var all := have + EncodeReplies(Answers(env, seen, left + batch));
      if Collected(env, seen, have, left, batch).Some? {
        var end := Scan(all, 0).value;
        assert Collected(env, seen, have, left, batch).value[0] == all[..end];
        assert all[..end][0] == have[0];
      }
    } else {
      var env := Telling(|seen + left| + 1);
      TellingTells(env, |seen + left| + 1);
      CollectedFirst(env, seen, left, batch);
      AnswersAre(env, seen, left + batch);
      AnswersAre(env, seen + left, batch);
      var got := Answers(env, seen, left + batch);
      assert |(seen + left) + batch[..1]| == |seen + left| + 1 && |seen + (left + batch)[..1]| == |seen| + 1;
      assert got[0] == env.answer(seen + (left + batch)[..1]) && got[..|batch|][0] == got[0];
      assert OwnAnswers(env, seen, left, batch)[0] == EncodeReply(env.answer((seen + left) + batch[..1]));
    }
  }

  lemma CollectedFirst(env: Env, seen: seq<Argv>, left: seq<Argv>, batch: seq<Argv>)
    requires AnswersWell(env)
    ensures |batch| <= |Answers(env, seen, left + batch)|
    ensures Collected(env, seen, [], left, batch) == Some(EncodeEach(Answers(env, seen, left + batch)[..|batch|]))
  {
    hide Scan, WellFormed, EncodeReply;
    AnswersAre(env, seen, left + batch);
    var rs := Answers(env, seen, left + batch);
    SentIsReceived(rs, |batch|);
    assert [] + EncodeReplies(rs) == EncodeReplies(rs);
  }

  /** An upstream none of whose answers starts with this byte. */
  function Unlike(b: byte): Env {
    Env(_ => false, _ => [], _ => if b == COLON then NullBulk else Integer(0), _ => [], true)
  }

  lemma UnlikeIsNot(b: byte, r: Reply)
    requires r == if b == COLON then NullBulk else Integer(0)
    ensures AnswersWell(Unlike(b)) && EncodeReply(r)[0] != b
  {
  }

  /** An upstream whose answer to the n-th request is unlike all others. */
  function Telling(n: nat): Env {
    Env(_ => false, _ => [], h => if |h| == n then NullBulk else Integer(0), _ => [], true)
  }

  lemma TellingTells(env: Env, n: nat)
    requires env == Telling(n)
    ensures AnswersWell(env) && EncodeReply(NullBulk)[0] != EncodeReply(Integer(0))[0]
  {
  }

  lemma SameFront(a: bytes, b: bytes, c: bytes, d: bytes)
    requires a + b == c + d && |a| == |c|
    ensures a == c && b == d
  {
    assert (a + b)[..|a|] == a && (c + d)[..|c|] == c;
    assert (a + b)[|a|..] == b && (c + d)[|c|..] == d;
  }

  lemma FirstReplyEnds(r: Reply, later: bytes)
    requires WellFormed(r)
    ensures Scan(EncodeReply(r) + later, 0) == Some(|EncodeReply(r)|)
  {
    hide EncodeReply, Scan;
    ReplyRoundTrip([], r, later);
    assert [] + EncodeReply(r) + later == EncodeReply(r) + later;
    assert [] + EncodeReply(r) == EncodeReply(r);
  }

  /**
   The upstream cannot be reached at first. The first request gets an error line, but stays in the outbox; so the
   second request gets the answer to the first one.
   */
  method RefusalShiftsReplies(env: Env, net: Network, first: Argv, second: Argv)
    returns (w: Writer, ghost line: bytes)
    requires !net.connects(0) && net.connects(1) && net.breaks(2).None? && ReadsWork(net)
    requires WellFormed(env.answer([first])) && Encodable(first) && Encodable(second)
    ensures READ_FAILED <= line && IsWhole(line)
    ensures w.All() == line + EncodeReply(env.answer([first]))
  {
    hide Scan, EncodeReply, EncodeReplies, Drain, IsWhole, Encode, EncodeAll, HeldBack, ReadsWork, ReadFrom;
    var server := new Server(env, net);
    var u := new UpstreamConn(server);
    w := new Writer();
    line := Refused(u, w, first);
    SendOnly(u.outbox, second);
    var ok := u.FlushSend();
    TwoRequests(env, first, second);
    var later := EncodeReplies(Answers(env, [first], [second]));
    assert u.buf.data + server.wire == EncodeReply(env.answer([first])) + later;
    FirstReplyEnds(env.answer([first]), later);
    var got;
    ghost var piece;
    got, piece := u.RecvOne(w);
    SameFront(piece, u.buf.data + server.wire, EncodeReply(env.answer([first])), later);
  }

  method Refused(u: UpstreamConn, w: Writer, request: Argv) returns (ghost line: bytes)
    requires u.Valid() && !u.open && u.outbox.data == [] == u.buf.data && !u.server.net.connects(u.server.tries)
    requires Encodable(request)
    modifies u, u.server, u.outbox, u.buf, w
    ensures u.Valid() && !u.open && u.outbox.data == Encode(request) && u.buf.data == []
    ensures u.server.wire == [] && u.server.seen == old(u.server.seen) && u.server.tries == old(u.server.tries) + 1
    ensures READ_FAILED <= line && IsWhole(line) && w.All() == old(w.All()) + line
  {
    hide Scan, IsWhole, Encode, HeldBack, Drain, EncodeReplies, Arrived;
    NothingThere();
    NotEmptied(request);
    SendOnly(u.outbox, request);
    assert u.outbox.data == Encode(request);
    var ok := u.FlushSend();
    var got;
    got, line := u.RecvOne(w);
  }

  lemma TwoRequests(env: Env, first: Argv, second: Argv)
    requires Encodable(first) && Encodable(second)
    ensures Drain(Encode(first) + Encode(second)).cmds == [first, second]
    ensures EncodeReplies(Answers(env, [], [first, second]))
      == EncodeReply(env.answer([first])) + EncodeReplies(Answers(env, [first], [second]))
  {
    hide Drain, Encode, EncodeReply;
    PipelineRoundTrip([first, second]);
    assert [first, second][1..] == [second] && [second][1..] == [];
    assert EncodeAll([]) == [] && EncodeAll([second]) == Encode(second) + EncodeAll([]);
    assert EncodeAll([first, second]) == Encode(first) + EncodeAll([second]);
    assert Encode(second) + [] == Encode(second);
    assert [] + [first] == [first];
  }

  lemma NotEmptied(request: Argv)
    ensures [] + Encode(request) == Encode(request) != []
  {
  }

  lemma NothingThere()
    ensures Scan([], 0).None?
  {
  }

  /**
   Of the first reply one byte arrives before the stream closes. The first request gets an error line, but the byte
   stays in the buffer; so the second request gets its own answer with that byte before it, which is another reply.
   */
  method CutReplyRunsOn(env: Env, net: Network, first: Argv, second: Argv, line: bytes, n: int)
    returns (w: Writer, ghost error: bytes)
    requires net.connects(0) && net.breaks(1).None? && net.arrives(2) == 1 && net.arrives(3) == 0
    requires net.connects(4) && net.breaks(5).None? && net.arrives(6) >= |EncodeReply(Integer(n))|
    requires env.answer([first]) == Simple(line) && Clean(line)
    requires env.answer([first, second]) == Integer(n) && -I64_MAX <= n <= I64_MAX
    requires Encodable(first) && Encodable(second)
    ensures READ_FAILED <= error && IsWhole(error)
    ensures w.All() == error + EncodeReply(Simple([COLON] + Print(n)))
  {
    hide Scan, EncodeReply, EncodeReplies, Drain, IsWhole, Encode, HeldBack, ReadFrom, Answers, Print;
    var server := new Server(env, net);
    var u := new UpstreamConn(server);
    w := new Writer();
    assert [] + [first] == [first];
    error := CutShort(u, w, first, line);
    assert [first] + [second] == [first, second];
    RunOn(u, w, second, n);
  }

  method CutShort(u: UpstreamConn, w: Writer, request: Argv, line: bytes) returns (ghost error: bytes)
    requires u.Valid() && !u.open && u.outbox.data == [] == u.buf.data && Encodable(request) && Clean(line)
    requires
      var net, t := u.server.net, u.server.tries;
      net.connects(t) && net.breaks(t + 1).None? && net.arrives(t + 2) == 1 && net.arrives(t + 3) == 0
    requires u.server.env.answer(u.server.seen + [request]) == Simple(line)
    modifies u, u.server, u.outbox, u.buf, w
    ensures u.Valid() && !u.open && u.outbox.data == [] && u.buf.data == [PLUS] && u.server.wire == []
    ensures u.server.seen == old(u.server.seen) + [request] && u.server.tries == old(u.server.tries) + 4
    ensures READ_FAILED <= error && IsWhole(error) && w.All() == old(w.All()) + error
  {
    hide Scan, EncodeReply, EncodeReplies, Drain, IsWhole, Encode, HeldBack, ReadFrom, Answers;
    NotEmptied(request);
    SendOnly(u.outbox, request);
    OneRequest(u.server.env, u.server.seen, request);
    var ok := u.FlushSend();
    OneByteOnly(u.server.net, u.server.tries, line);
    var got;
    got, error := u.RecvOne(w);
  }

  method RunOn(u: UpstreamConn, w: Writer, request: Argv, n: int)
    requires u.Valid() && !u.open && u.outbox.data == [] && u.buf.data == [PLUS] && Encodable(request)
    requires
      var net, t := u.server.net, u.server.tries;
      net.connects(t) && net.breaks(t + 1).None? && net.arrives(t + 2) >= |EncodeReply(Integer(n))|
    requires u.server.env.answer(u.server.seen + [request]) == Integer(n) && -I64_MAX <= n <= I64_MAX
    modifies u, u.server, u.outbox, u.buf, w
    ensures w.All() == old(w.All()) + EncodeReply(Simple([COLON] + Print(n)))
  {
    hide Scan, EncodeReply, EncodeReplies, Drain, IsWhole, Encode, HeldBack, ReadFrom, Answers, Print;
    NotEmptied(request);
    SendOnly(u.outbox, request);
    OneRequest(u.server.env, u.server.seen, request);
    var ok := u.FlushSend();
    NumberAfterPlus(u.server.net, u.server.tries, n);
    var got;
    ghost var piece;
    got, piece := u.RecvOne(w);
  }

  lemma OneRequest(env: Env, seen: seq<Argv>, request: Argv)
    requires Encodable(request)
    ensures Drain(Encode(request)).cmds == [request]
    ensures [] + EncodeReplies(Answers(env, seen, [request])) == EncodeReply(env.answer(seen + [request]))
  {
    hide Drain, Encode, EncodeReply;
    PipelineRoundTrip([request]);
    assert [request][1..] == [] && EncodeAll([request]) == Encode(request) + EncodeAll([]);
    assert EncodeAll([request]) == Encode(request);
    var r := env.answer(seen + [request]);
    assert Answers(env, seen, [request]) == [r] + Answers(env, seen + [request], []) == [r];
    assert [r][1..] == [];
  }

  lemma OneByteOnly(net: Network, try: nat, line: bytes)
    requires net.arrives(try) == 1 && net.arrives(try + 1) == 0
    ensures
      var o := ReadFrom(net, true, try, [], EncodeReply(Simple(line)));
      o.reply.None? && o.buf == [PLUS] && o.tries == try + 2
  {
    var wire := EncodeReply(Simple(line));
    assert Arrived(net, try, wire) == [PLUS] && [] + [PLUS] == [PLUS];
    assert Scan([PLUS], 0).None?;
    assert Arrived(net, try + 1, wire[1..]) == [];
  }

  lemma NumberAfterPlus(net: Network, try: nat, n: int)
    requires net.arrives(try) >= |EncodeReply(Integer(n))| && -I64_MAX <= n <= I64_MAX
    ensures ReadFrom(net, true, try, [PLUS], EncodeReply(Integer(n))).reply
      == Some(EncodeReply(Simple([COLON] + Print(n))))
  {
    hide Print, FirstCrlf;
    var wire := EncodeReply(Integer(n));
    var all := EncodeReply(Simple([COLON] + Print(n)));
    assert [PLUS] + wire == all && Arrived(net, try, wire) == wire;
    PrintIsClean(n);
    LineEnds([PLUS], [COLON] + Print(n), []);
    assert all == [PLUS] + ([COLON] + Print(n)) + CRLF + [];
    assert Scan([PLUS], 0).None? by {
      ShortHasNoEnd();
    }
  }

  lemma ShortHasNoEnd()
    ensures FirstCrlf([PLUS], 1).None?
  {
  }
}
