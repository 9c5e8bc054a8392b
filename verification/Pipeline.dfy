/**
 The connection loop: read, parse every complete command, answer local commands at once, batch proxied ones
 upstream and collect their replies, so that the client sees one reply per command in request order.

 Whatever the network to the upstream does, every command gets one reply, in order, and those made here are right; as
 long as the network never fails, all of them are.
 */
module Pipeline {
  import opened Bytes
  import opened Options
  import opened Decimal
  import opened RespParser
  import Words
  import opened ReplyScanner
  import opened Output
  import opened Upstream

  const QUIT: bytes := [81, 85, 73, 84]

  /** Replies are well-formed, and every command gets one. */
  ghost predicate Sane(env: Env) {
    && (forall h: seq<Argv> :: WellFormed(env.answer(h)))
    && (forall h: seq<Argv> :: env.local(h) != []) && (forall name: bytes :: env.unknown(name) != [])
  }

  predicate IsLocal(env: Env, cmd: Argv) { cmd != [] && env.isLocal(Upper(cmd[0])) }

  predicate IsQuit(env: Env, cmd: Argv) { IsLocal(env, cmd) && Upper(cmd[0]) == QUIT }

  /** A name in capitals under which the command is served here. */
  ghost predicate NamesIt(env: Env, n: bytes, cmd: Argv) {
    cmd != [] && env.isLocal(n) && SameButCase(n, cmd[0]) && forall i :: 0 <= i < |n| ==> !(97 <= n[i] <= 122)
  }

  /** A command is served here exactly if one of the names served here, in capitals, is its own but for case. */
  lemma ServedHereIff(env: Env, cmd: Argv)
    ensures IsLocal(env, cmd) <==> exists n :: NamesIt(env, n, cmd)
  {
    if cmd != [] {
      FoldedCase(cmd[0]);
      assert IsLocal(env, cmd) ==> NamesIt(env, Upper(cmd[0]), cmd);
      forall n | NamesIt(env, n, cmd) ensures n == Upper(cmd[0]) {
        FoldIff(n, cmd[0]);
        InCapitals(n);
      }
    }
  }

  lemma InCapitals(n: bytes)
    requires forall i :: 0 <= i < |n| ==> !(97 <= n[i] <= 122)
    ensures Upper(n) == n
  {
  }

  /** "quit" in any case ends the connection, as long as that name is served at all. */
  lemma QuitIff(env: Env, cmd: Argv)
    requires cmd != []
    ensures IsQuit(env, cmd) <==> env.isLocal([81, 85, 73, 84]) && SameButCase([81, 85, 73, 84], cmd[0])
  {
    FoldIff([81, 85, 73, 84], cmd[0]);
    InCapitals([81, 85, 73, 84]);
  }

  /** What is owed for one more command, in the names served here. */
  lemma OwedForNext(env: Env, hist: seq<Argv>, cmd: Argv)
    requires NoneEmpty(hist) && cmd != []
    ensures NoneEmpty(hist + [cmd])
    ensures (exists n :: NamesIt(env, n, cmd)) ==>
      && Expected(env, hist + [cmd]) == Expected(env, hist) + env.local(hist + [cmd])
      && Forwarded(env, hist + [cmd]) == Forwarded(env, hist)
    ensures !(exists n :: NamesIt(env, n, cmd)) && !env.proxied ==>
      Expected(env, hist + [cmd]) == Expected(env, hist) + env.unknown(cmd[0])
    ensures !(exists n :: NamesIt(env, n, cmd)) && env.proxied ==>
      && Expected(env, hist + [cmd]) == Expected(env, hist) + EncodeReply(env.answer(Forwarded(env, hist) + [cmd]))
      && Forwarded(env, hist + [cmd]) == Forwarded(env, hist) + [cmd]
    ensures Expected(env, []) == [] && Forwarded(env, []) == []
  {
    hide IsLocal, EncodeReply, NamesIt;
    ExpectedStep(env, hist, cmd);
    ServedHereIff(env, cmd);
  }

  // ----- what the client should see

  function NonEmpty(cmds: seq<Argv>): seq<Argv> {
    if cmds == [] then []
    else (if cmds[0] == [] then [] else [cmds[0]]) + NonEmpty(cmds[1..])
  }

  /** The requests among a history that go upstream. */
  function Forwarded(env: Env, hist: seq<Argv>): seq<Argv> {
    if hist == [] || !env.proxied then []
    else
      var last := hist[|hist| - 1];
      Forwarded(env, hist[..|hist| - 1]) + (if IsLocal(env, last) then [] else [last])
  }

  /** The reply owed to the last command of a history. */
  function ReplyToLast(env: Env, hist: seq<Argv>): bytes
    requires hist != [] && hist[|hist| - 1] != []
  {
    var last := hist[|hist| - 1];
    if IsLocal(env, last) then env.local(hist)
    else if env.proxied then EncodeReply(env.answer(Forwarded(env, hist)))
    else env.unknown(last[0])
  }

  /** The last command is forwarded, or its reply does not fill the writer's buffer by itself. */
  predicate LastFits(env: Env, hist: seq<Argv>) {
    && hist != [] && hist[|hist| - 1] != []
    && (IsLocal(env, hist[|hist| - 1]) || !env.proxied ==> |ReplyToLast(env, hist)| < WRITER_CAPACITY)
  }

  /** A reply made here is the one owed, and whatever comes from the upstream is one complete reply. */
  predicate Fits(env: Env, hist: seq<Argv>, reply: bytes)
    requires hist != [] && hist[|hist| - 1] != []
  {
    if IsLocal(env, hist[|hist| - 1]) || !env.proxied then reply == ReplyToLast(env, hist) else IsWhole(reply)
  }

  ghost predicate AllFit(env: Env, hist: seq<Argv>, replies: seq<bytes>)
    requires NoneEmpty(hist)
  {
    |replies| == |hist| && forall i :: 0 <= i < |hist| ==> Fits(env, hist[..i + 1], replies[i])
  }

  predicate NoneEmpty(hist: seq<Argv>) { forall i :: 0 <= i < |hist| ==> hist[i] != [] }

  /** One reply per command, in request order. */
  function Expected(env: Env, hist: seq<Argv>): bytes
    requires NoneEmpty(hist)
  {
    if hist == [] then [] else Expected(env, hist[..|hist| - 1]) + ReplyToLast(env, hist)
  }

  // ----- lemmas about the expected output

  lemma ExpectedStep(env: Env, hist: seq<Argv>, cmd: Argv)
    requires NoneEmpty(hist) && cmd != []
    ensures NoneEmpty(hist + [cmd])
    ensures Expected(env, hist + [cmd]) == Expected(env, hist) + ReplyToLast(env, hist + [cmd])
    ensures Forwarded(env, hist + [cmd])
         == Forwarded(env, hist) + (if env.proxied && !IsLocal(env, cmd) then [cmd] else [])
  {
    hide ReplyToLast;
    assert (hist + [cmd])[..|hist|] == hist;
  }

  /** Every further command is owed at least one byte more. */
  lemma {:induction false} ExpectedGrows(env: Env, a: seq<Argv>, b: seq<Argv>)
    requires Sane(env) && NoneEmpty(b) && a <= b
    ensures Expected(env, a) <= Expected(env, b) && |Expected(env, a)| + (|b| - |a|) <= |Expected(env, b)|
    decreases |b|
  {
    if a == b {
    } else {
      hide Expected;
      var front, cmd := b[..|b| - 1], b[|b| - 1];
      assert b == front + [cmd];
      ExpectedGrows(env, a, front);
      ExpectedStep(env, front, cmd);
      ReplyNotEmpty(env, b);
    }
  }

  lemma ReplyNotEmpty(env: Env, hist: seq<Argv>)
    requires Sane(env) && hist != [] && hist[|hist| - 1] != []
    ensures ReplyToLast(env, hist) != []
  {
  }

  /** A command that is answered on the spot: its reply goes after everything written so far. */
  lemma AnsweredHere(env: Env, hist: seq<Argv>, cmd: Argv, written: bytes)
    requires NoneEmpty(hist) && cmd != [] && (IsLocal(env, cmd) || !env.proxied)
    ensures NoneEmpty(hist + [cmd]) && Forwarded(env, hist + [cmd]) == Forwarded(env, hist)
    ensures written == Expected(env, hist) ==>
      written + (if IsLocal(env, cmd) then env.local(hist + [cmd]) else env.unknown(cmd[0]))
        == Expected(env, hist + [cmd])
  {
    hide Expected, Forwarded;
    ExpectedStep(env, hist, cmd);
  }

  /** Collecting the upstream's answers to a batch yields exactly the replies owed to it. */
  lemma {:induction false} BatchReplies(env: Env, hist: seq<Argv>, batch: seq<Argv>)
    requires env.proxied && NoneEmpty(hist) && NoneEmpty(batch)
    requires forall i :: 0 <= i < |batch| ==> !IsLocal(env, batch[i])
    ensures NoneEmpty(hist + batch)
    ensures Expected(env, hist + batch)
         == Expected(env, hist) + EncodeReplies(Answers(env, Forwarded(env, hist), batch))
    ensures Forwarded(env, hist + batch) == Forwarded(env, hist) + batch
    decreases |batch|
  {
    hide EncodeReply, Expected, Forwarded;
    if batch == [] {
      assert hist + batch == hist;
      assert Forwarded(env, hist) + batch == Forwarded(env, hist);
      assert Expected(env, hist) + [] == Expected(env, hist);
    } else {
      var cmd, others := batch[0], batch[1..];
      ExpectedStep(env, hist, cmd);
      BatchReplies(env, hist + [cmd], others);
      assert hist + batch == (hist + [cmd]) + others;
      var seen := Forwarded(env, hist);
      assert Answers(env, seen, batch)[1..] == Answers(env, seen + [cmd], others);
      assert seen + batch == (seen + [cmd]) + others;
    }
  }

  lemma OneMoreFits(env: Env, hist: seq<Argv>, cmd: Argv, replies: seq<bytes>, reply: bytes)
    requires NoneEmpty(hist) && cmd != [] && AllFit(env, hist, replies) && (IsLocal(env, cmd) || !env.proxied)
    requires reply == if IsLocal(env, cmd) then env.local(hist + [cmd]) else env.unknown(cmd[0])
    ensures NoneEmpty(hist + [cmd]) && AllFit(env, hist + [cmd], replies + [reply])
    ensures Concat(replies + [reply]) == Concat(replies) + reply
  {
    ConcatAppend(replies, reply);
    hide Upper, Concat;
    var next := hist + [cmd];
    assert next[..|next|] == next;
    forall i | 0 <= i < |next| ensures Fits(env, next[..i + 1], (replies + [reply])[i]) {
      if i < |hist| {
        assert next[..i + 1] == hist[..i + 1];
      }
    }
  }

  lemma NewRepliesFit(env: Env, hist: seq<Argv>, base: seq<Argv>, replies: seq<bytes>, pieces: seq<bytes>)
    requires NoneEmpty(hist) && base <= hist && AllFit(env, base, replies) && |base| + |pieces| == |hist|
    requires forall p <- pieces :: IsWhole(p)
    requires |base| < |hist| ==> env.proxied
    requires forall i :: |base| <= i < |hist| ==> !IsLocal(env, hist[i])
    ensures AllFit(env, hist, replies + pieces)
  {
    hide Upper, IsWhole, IsLocal;
    forall i | 0 <= i < |hist| ensures Fits(env, hist[..i + 1], (replies + pieces)[i]) {
      if i < |base| {
        assert hist[..i + 1] == base[..i + 1];
      } else {
        assert (replies + pieces)[i] in pieces;
      }
    }
  }

  /** The first k pieces have been cut off what there was; any others are error lines, as no reply was left. */
  ghost predicate Obtained(all: bytes, pieces: seq<bytes>, k: nat, buf: bytes, wire: bytes) {
    && k <= |pieces| && Received(all, k) == Some(pieces[..k])
    && (forall j :: k <= j < |pieces| ==> READ_FAILED <= pieces[j])
    && (k == |pieces| ==> all == Concat(pieces) + (buf + wire))
    && (k < |pieces| ==> Concat(pieces[..k]) + buf <= all && Scan(buf, 0).None? && wire == [])
  }

  lemma NotNothing(left: seq<Argv>, batch: seq<Argv>)
    requires batch != []
    ensures EncodeAll(left + batch) != []
  {
    hide Encode;
    NotEmptied((left + batch)[0]);
  }

  lemma NothingObtained(all: bytes, buf: bytes, wire: bytes)
    requires all == buf + wire
    ensures Obtained(all, [], 0, buf, wire) && Concat([]) == []
  {
    assert [] + all == all;
  }

  lemma ObtainedMore(
    all: bytes, pieces: seq<bytes>, k: nat, buf: bytes, wire: bytes, got: bool, piece: bytes, buf': bytes, wire': bytes)
    requires Obtained(all, pieces, k, buf, wire)
    requires got ==> Scan(buf + wire, 0) == Some(|piece|) && buf + wire == piece + (buf' + wire')
    requires !got ==> buf' <= buf + wire && Scan(buf', 0).None? && READ_FAILED <= piece && wire' == []
    ensures Obtained(all, pieces + [piece], if got then k + 1 else k, buf', wire')
    ensures k == |pieces| ==> (Received(all, k + 1).Some? <==> Scan(buf + wire, 0).Some?)
  {
    hide Scan, Received, Concat;
    var more := pieces + [piece];
    ConcatAppend(pieces, piece);
    if k == |pieces| {
      assert pieces[..k] == pieces && more[..k] == pieces && more[..k + 1] == more;
      ReceivedMore(all, k);
      assert all[|Concat(pieces)|..] == buf + wire;
      if got {
        assert (buf + wire)[..|piece|] == piece;
        assert Concat(pieces) + (piece + (buf' + wire')) == Concat(more) + (buf' + wire');
      } else {
        assert Concat(pieces) + buf' <= all;
      }
    } else {
      assert buf + wire == buf && more[..k] == pieces[..k];
      assert Concat(pieces[..k]) + buf' <= Concat(pieces[..k]) + buf;
    }
  }

  /** On an upstream that owes nothing, a batch collects its answers. */
  lemma OwnCollected(env: Env, seen: seq<Argv>, batch: seq<Argv>)
    requires AnswersWell(env)
    ensures [] + batch == batch
    ensures Collected(env, seen, [], [], batch) == Some(EncodeEach(Answers(env, seen, batch)))
    ensures Concat(EncodeEach(Answers(env, seen, batch))) == EncodeReplies(Answers(env, seen, batch))
    ensures [] + EncodeReplies(Answers(env, seen, batch)) == EncodeReplies(Answers(env, seen, batch))
  {
    hide EncodeReply, Received, WellFormed;
    CollectedFirst(env, seen, [], batch);
    assert [] + batch == batch;
    AnswersAre(env, seen, batch);
    assert Answers(env, seen, batch)[..|batch|] == Answers(env, seen, batch);
    EachThenAll(Answers(env, seen, batch));
  }

  lemma NothingLeft(have: bytes, answers: bytes, rest: bytes)
    requires have == [] && have + answers == answers + rest
    ensures rest == []
  {
    assert |have + answers| == |answers + rest|;
  }

  lemma {:induction false} EachThenAll(rs: seq<Reply>)
    ensures Concat(EncodeEach(rs)) == EncodeReplies(rs)
    decreases |rs|
  {
    hide EncodeReply;
    if rs == [] {
    } else {
      EachThenAll(rs[1..]);
      assert ([EncodeReply(rs[0])] + EncodeEach(rs[1..]))[1..] == EncodeEach(rs[1..]);
    }
  }

  lemma {:induction false} NonEmptyAppend(cmds: seq<Argv>, argv: Argv)
    ensures NonEmpty(cmds + [argv]) == NonEmpty(cmds) + (if argv == [] then [] else [argv])
    decreases |cmds|
  {
    if cmds == [] {
      assert cmds + [argv] == [argv];
    } else {
      assert (cmds + [argv])[1..] == cmds[1..] + [argv];
      NonEmptyAppend(cmds[1..], argv);
    }
  }

  lemma {:induction false} NonEmptyConcat(a: seq<Argv>, b: seq<Argv>)
    ensures NonEmpty(a + b) == NonEmpty(a) + NonEmpty(b)
    decreases |a|
  {
    if a == [] {
      assert a + b == b;
    } else {
      assert (a + b)[1..] == a[1..] + b;
      NonEmptyConcat(a[1..], b);
    }
  }

  /** These commands have been parsed off the stream and these bytes are left of it. */
  ghost predicate ParsedSoFar(stream: bytes, cmds: seq<Argv>, rest: bytes) {
    Drain(stream) == Drained(cmds, [], false).Then(Drain(rest))
  }

  lemma ParsingStarts(stream: bytes, chunk: bytes)
    requires !Drain(stream).bad
    ensures ParsedSoFar(stream + chunk, Drain(stream).cmds, Drain(stream).rest + chunk)
  {
    hide Drain;
    DrainAppend(stream, chunk);
  }

  lemma ParsingGoesOn(stream: bytes, cmds: seq<Argv>, rest: bytes)
    requires ParsedSoFar(stream, cmds, rest)
    ensures Parse(rest).Incomplete? ==> Drain(stream) == Drained(cmds, rest, false)
    ensures Parse(rest).Malformed? ==> Drain(stream).bad && Drain(stream).cmds == cmds
    ensures Parse(rest).Parsed? ==>
      && ParsedSoFar(stream, cmds + [Parse(rest).argv], rest[Parse(rest).used..])
      && NonEmpty(cmds + [Parse(rest).argv])
        == NonEmpty(cmds) + if Parse(rest).argv == [] then [] else [Parse(rest).argv]
  {
    hide Drain, Parse, NonEmpty;
    DrainUnfold(rest);
    assert cmds + [] == cmds;
    if Parse(rest).Parsed? {
      var argv, later := Parse(rest).argv, Drain(rest[Parse(rest).used..]);
      ThenAssociative(Drained(cmds, [], false), Drained([argv], [], false), later);
      NonEmptyAppend(cmds, argv);
    }
  }

  lemma ParsedAreFirst(stream: bytes, cmds: seq<Argv>, rest: bytes)
    requires ParsedSoFar(stream, cmds, rest)
    ensures NonEmpty(cmds) <= NonEmpty(Drain(stream).cmds)
  {
    hide Drain, NonEmpty;
    NonEmptyConcat(cmds, Drain(rest).cmds);
  }

  /** What has been decided about a stream stays so whatever follows. */
  lemma LaterBytesChangeNothing(stream: bytes, later: bytes, hist: seq<Argv>)
    ensures Drain(stream).bad ==>
      Drain(stream + later).bad && Drain(stream + later).cmds == Drain(stream).cmds
    ensures hist <= NonEmpty(Drain(stream).cmds) ==> hist <= NonEmpty(Drain(stream + later).cmds)
  {
    hide Drain, NonEmpty;
    DrainAppend(stream, later);
    if !Drain(stream).bad {
      NonEmptyConcat(Drain(stream).cmds, Drain(Drain(stream).rest + later).cmds);
    }
  }

  lemma {:induction false} FieldsFit(line: bytes, open: bytes)
    ensures |Words.FieldsAfter(line, open, BLANKS)| <= |line| + |open|
    ensures forall k :: 0 <= k < |Words.FieldsAfter(line, open, BLANKS)| ==>
        |Words.FieldsAfter(line, open, BLANKS)[k]| <= |line| + |open|
    decreases |line|
  {
    if line == [] {
    } else {
      if line[0] in BLANKS {
        FieldsFit(line[1..], []);
      } else {
        FieldsFit(line[1..], open + [line[0]]);
      }
    }
  }

  lemma {:induction false} BulksFit(b: bytes, cursor: nat, n: nat)
    requires cursor <= |b|
    ensures var r := BulksAt(b, cursor, n);
            r.Bulks? ==> forall k :: 0 <= k < |r.argv| ==> |r.argv[k]| <= |b|
    decreases n
  {
    hide IntLineAt;
    if n == 0 {
    } else {
      var bulk := BulkAt(b, cursor);
      if bulk.Bulk? {
        assert |bulk.arg| <= |b|;
        BulksFit(b, bulk.next, n - 1);
      }
    }
  }

  /** A command parsed from a buffer can be serialized again. */
  lemma ParsedIsEncodable(b: bytes)
    requires |b| <= I64_MAX && Parse(b).Parsed?
    ensures Encodable(Parse(b).argv)
  {
    hide IntLineAt, FirstCrlf, BulksAt, Words.FieldsAfter;
    if b[0] == STAR {
      var line := IntLineAt(b, 1);
      if line.value >= 0 {
        BulksFit(b, line.next, line.value);
      }
    } else {
      FieldsFit(b[..FirstCrlf(b, 0).value], []);
    }
  }

  // ----- the connection

  datatype Status = More | ParseError | Quit

  class Connection {
    const env: Env
    const buf: ByteBuf
    const wr: Writer
    const upstream: UpstreamConn
    var pendingProxy: nat
    var hist: seq<Argv> // the non-empty commands so far: what local replies may depend on
    ghost var replies: seq<bytes> // what has been written for each of them
    ghost var left: seq<Argv> // requests that have got an error line for a reply but are still in the outbox
    ghost var stream: bytes

    constructor (env: Env, net: Network)
      requires Sane(env)
      ensures this.env == env && upstream.server.net == net && Shape() && Kept() && Idle()
      ensures hist == [] && stream == [] && replies == [] && left == []
      ensures fresh(buf) && fresh(wr) && fresh(upstream) && fresh(upstream.server)
      ensures fresh(upstream.outbox) && fresh(upstream.buf)
    {
      this.env := env;
      buf := new ByteBuf();
      wr := new Writer();
      var server := new Server(env, net);
      upstream := new UpstreamConn(server);
      pendingProxy, hist, stream, replies, left := 0, [], [], [], [];
    }

    ghost predicate Shape()
      reads this, upstream, upstream.server
    {
      && Sane(env) && upstream.server.env == env && upstream.Valid()
      && buf != upstream.outbox && buf != upstream.buf
    }

    ghost predicate Reliable()
      reads this, upstream, upstream.server
    {
      NeverFails(upstream.server.net)
    }

    /** How many commands of the history have been answered. */
    ghost function Answered(): nat
      reads this
      requires pendingProxy <= |hist|
    {
      |hist| - pendingProxy
    }

    /** One reply was written for each command, in order, save for the forwarded ones that come last. */
    ghost predicate InStep()
      reads this, wr
    {
      && NoneEmpty(hist) && pendingProxy <= |hist|
      && (pendingProxy > 0 ==> env.proxied)
      && (forall i :: Answered() <= i < |hist| ==> !IsLocal(env, hist[i]))
      && wr.All() == Concat(replies) && AllFit(env, hist[..Answered()], replies)
    }

    /** The outbox holds what has not been sent, in order. */
    ghost predicate Queued()
      reads this, upstream.outbox
    {
      && pendingProxy <= |hist| && AllEncodable(left + hist[Answered()..])
      && upstream.outbox.data == EncodeAll(left + hist[Answered()..])
    }

    /**
     Besides, the commands answered so far got exactly their replies, the rest are all there is in the outbox, and
     the upstream owes nothing for earlier ones.
     */
    ghost predicate Owing()
      reads this, wr, upstream.outbox, upstream.buf, upstream.server
    {
      && InStep()
      && wr.All() == Expected(env, hist[..Answered()])
      && left == [] && upstream.buf.data + upstream.server.wire == []
      && upstream.server.seen == Forwarded(env, hist[..Answered()])
    }

    /** What every step keeps. */
    ghost predicate Kept()
      reads this, wr, upstream, upstream.outbox, upstream.buf, upstream.server
    {
      InStep() && Queued() && (Reliable() ==> Owing())
    }

    /** Between reads: nothing pending, nothing buffered, every complete command handled. */
    ghost predicate Idle()
      reads this, buf, wr
    {
      && pendingProxy == 0 && wr.data == []
      && !Drain(stream).bad
      && hist == NonEmpty(Drain(stream).cmds)
      && buf.data == Drain(stream).rest
    }

    /** Every command handled has its reply sent. */
    ghost predicate AllSent()
      reads this, wr
    {
      pendingProxy == 0 && wr.data == []
    }

    /**
     The connection ended while handling what came after these bytes: the replies to the commands in them had all
     been sent, and those to later commands stayed in the buffer as long as it could hold them. The last of them is
     still held back or pending, unless it alone fills the buffer.
     */
    ghost predicate StoppedAfter(earlier: bytes)
      reads this, wr
    {
      var before := NonEmpty(Drain(earlier).cmds);
      && before <= hist && |before| <= |replies|
      && NothingSentSince(Concat(replies[..|before|]), before)
    }

    /** What has been sent is a beginning of the replies, and all of them exactly when none is pending or held back. */
    lemma AllSentIff()
      requires InStep()
      ensures wr.sent <= Concat(replies)
      ensures |replies| == |hist| && wr.sent == Concat(replies) <==> AllSent()
    {
    }

    /** What was written for a command, in the names served here. */
    lemma WrittenFor(i: nat)
      requires InStep() && i < |replies|
      ensures i < |hist| && hist[i] != []
      ensures (exists n :: NamesIt(env, n, hist[i])) ==> replies[i] == env.local(hist[..i + 1])
      ensures !(exists n :: NamesIt(env, n, hist[i])) && !env.proxied ==> replies[i] == env.unknown(hist[i][0])
      ensures !(exists n :: NamesIt(env, n, hist[i])) && env.proxied ==> IsWhole(replies[i])
    {
      hide NamesIt, IsLocal, IsWhole, Concat;
      var upTo := hist[..Answered()];
      assert upTo[..i + 1] == hist[..i + 1] && hist[..i + 1][i] == hist[i];
      assert Fits(env, upTo[..i + 1], replies[i]);
      ServedHereIff(env, hist[i]);
    }

    /** And without failures of the network the replies are those owed. */
    lemma AllSentMeans()
      requires Shape() && Owing()
      ensures Concat(replies) == Expected(env, hist[..Answered()])
      ensures wr.sent <= Expected(env, hist) && (wr.sent == Expected(env, hist) <==> AllSent())
    {
      hide Expected, Forwarded, EncodeAll, AllFit;
      ExpectedGrows(env, hist[..Answered()], hist);
      if pendingProxy == 0 {
        Caught();
      }
    }

    /**
     A connection that ends early has sent every reply exactly when the bytes read since the last flush completed no
     command, however much was written, unless the last reply alone fills the buffer.
     */
    lemma LateRepliesAreLost(earlier: bytes)
      requires InStep() && StoppedAfter(earlier)
      requires LastFits(env, hist) || hist == NonEmpty(Drain(earlier).cmds)
      ensures AllSent() <==> hist == NonEmpty(Drain(earlier).cmds)
    {
      hide Drain, NonEmpty, Fits;
      if hist == NonEmpty(Drain(earlier).cmds) {
        assert replies[..|hist|] == replies;
      }
    }

    /** With less than a buffer's worth of replies since that flush, the client has those up to it and no more. */
    lemma NoneSentSince(earlier: bytes)
      requires InStep() && StoppedAfter(earlier)
      requires |wr.All()| < |Concat(replies[..|NonEmpty(Drain(earlier).cmds)|])| + WRITER_CAPACITY
      ensures wr.sent == Concat(replies[..|NonEmpty(Drain(earlier).cmds)|])
    {
      hide Concat, AllFit, Drain, NonEmpty;
    }

    /** What the pending requests will collect if the network does not fail, as things are. */
    ghost function ToCollect(): Option<seq<bytes>>
      reads this, upstream, upstream.buf, upstream.server
      requires pendingProxy <= |hist|
    {
      Collected(env, upstream.server.seen, upstream.buf.data + upstream.server.wire, left, hist[Answered()..])
    }

    /** Whether the outbox will get through. */
    ghost predicate Sends()
      reads this, upstream, upstream.server
    {
      upstream.Connects() && upstream.Writes()
    }

    /**
     Send the outbox and copy one reply per pending request to the client. When the network does its part, these are
     the first replies there are, whoever they were for. Only for want of a connection do requests stay behind.
     */
    method DrainPending()
      requires Shape() && Kept()
      modifies this`pendingProxy, this`replies, this`left
      modifies wr, upstream`open, upstream.outbox, upstream.buf, upstream.server
      ensures Shape() && Kept() && pendingProxy == 0 && old(replies) <= replies
      ensures old(|wr.All()|) <= |wr.All()| && HeldBack(old(wr.sent), wr.sent, wr.data)
      ensures old(pendingProxy) > 0 && old(Sends()) && ReadsWork(upstream.server.net) && old(ToCollect()).Some? ==>
        replies == old(replies) + old(ToCollect()).value
      ensures left ==
        if old(pendingProxy) == 0 then old(left)
        else if old(upstream.Connects()) then []
        else old(left + hist[Answered()..])
    {
      hide EncodeReplies, Answers, Expected, Forwarded, EncodeAll, Drain, WellFormed, Fits, Concat, Received, Collected,
        EncodeEach, AllFit, IsWhole, HeldBack, IsLocal, Encodable;
      if pendingProxy > 0 {
        ghost var base, batch := hist[..Answered()], hist[Answered()..];
        ghost var connects, have := upstream.Connects(), upstream.buf.data + upstream.server.wire;
        ghost var seen := upstream.server.seen;
        ghost var pieces := Exchange();
        if Reliable() {
          OwnCollected(env, seen, batch);
          BatchReplies(env, base, batch);
          assert base + batch == hist;
          NothingLeft(have, EncodeReplies(Answers(env, seen, batch)), upstream.buf.data + upstream.server.wire);
        }
        Settle(pieces, connects);
      } else {
        NothingMoreSent(wr.sent, wr.data);
        Caught();
      }
    }

    /** The replies have been written for all that was pending. */
    method Settle(ghost pieces: seq<bytes>, ghost connects: bool)
      requires Shape() && NoneEmpty(hist) && 0 < pendingProxy <= |hist| && env.proxied
      requires forall i :: Answered() <= i < |hist| ==> !IsLocal(env, hist[i])
      requires wr.All() == Concat(replies) + Concat(pieces) && AllFit(env, hist[..Answered()], replies)
      requires |pieces| == pendingProxy && forall p <- pieces :: IsWhole(p)
      requires AllEncodable(left + hist[Answered()..])
      requires upstream.outbox.data == if connects then [] else EncodeAll(left + hist[Answered()..])
      requires Reliable() ==>
        && connects && wr.All() == Expected(env, hist) && upstream.buf.data + upstream.server.wire == []
        && upstream.server.seen == Forwarded(env, hist)
      modifies this`pendingProxy, this`replies, this`left
      ensures Shape() && Kept() && pendingProxy == 0 && replies == old(replies) + pieces
      ensures left == if connects then [] else old(left + hist[Answered()..])
    {
      hide Expected, Forwarded, EncodeAll, Fits, Concat, IsWhole, IsLocal, Encodable, HeldBack;
      NewRepliesFit(env, hist, hist[..Answered()], replies, pieces);
      ConcatSplit(replies, pieces);
      left := if connects then [] else left + hist[Answered()..];
      replies := replies + pieces;
      pendingProxy := 0;
      Caught();
      assert left + hist[Answered()..] == left;
    }

    /** Flush the outbox and receive as many replies as there are pending requests. */
    method Exchange() returns (ghost pieces: seq<bytes>)
      requires Shape() && Queued() && pendingProxy > 0
      modifies wr, upstream`open, upstream.outbox, upstream.buf, upstream.server
      ensures Shape() && |pieces| == pendingProxy && forall p <- pieces :: IsWhole(p)
      ensures wr.All() == old(wr.All()) + Concat(pieces) && HeldBack(old(wr.sent), wr.sent, wr.data)
      ensures upstream.outbox.data == if old(upstream.Connects()) then [] else old(upstream.outbox.data)
      ensures old(Sends()) ==> upstream.server.seen == old(upstream.server.seen) + (left + hist[Answered()..])
      ensures old(Sends()) && ReadsWork(upstream.server.net) && old(ToCollect()).Some? ==>
        && pieces == old(ToCollect()).value
        && old(upstream.buf.data + upstream.server.wire)
          + EncodeReplies(Answers(env, old(upstream.server.seen), left + hist[Answered()..]))
          == Concat(pieces) + (upstream.buf.data + upstream.server.wire)
    {
      hide EncodeReplies, Answers, EncodeAll, Drain, Concat, Received, Sane, IsWhole;
      ghost var requests := left + hist[Answered()..];
      PipelineRoundTrip(requests);
      NotNothing(left, hist[Answered()..]);
      ghost var buf, wire := upstream.buf.data, upstream.server.wire;
      ghost var answers := EncodeReplies(Answers(env, upstream.server.seen, requests));
      var ok := upstream.FlushSend();
      assert buf + (wire + answers) == (buf + wire) + answers;
      ghost var k;
      pieces, k := RecvAll();
      assert pieces[..|pieces|] == pieces;
    }

    /**
     Receive one reply per pending request and write each to the client, in order: the first k are those that scanning
     cuts off what there is, the others, if the stream ends before, are error lines.
     */
    method RecvAll() returns (ghost pieces: seq<bytes>, ghost k: nat)
      requires Shape()
      modifies wr, upstream`open, upstream.buf, upstream.server`tries, upstream.server`wire
      ensures Shape() && |pieces| == pendingProxy && forall p <- pieces :: IsWhole(p)
      ensures wr.All() == old(wr.All()) + Concat(pieces) && HeldBack(old(wr.sent), wr.sent, wr.data)
      ensures
        var all := old(upstream.buf.data + upstream.server.wire);
        && Obtained(all, pieces, k, upstream.buf.data, upstream.server.wire)
        && (ReadsWork(upstream.server.net) && Received(all, pendingProxy).Some? ==> k == |pieces|)
    {
      hide EncodeReply, IsWhole, Scan, Concat, HeldBack, ReadsWork, Sane, Received, ReadFrom, Obtained;
      ghost var before, start := wr.All(), wr.sent;
      ghost var all := upstream.buf.data + upstream.server.wire;
      pieces, k := [], 0;
      NothingObtained(all, upstream.buf.data, upstream.server.wire);
      NothingMoreSent(wr.sent, wr.data);
      for i := 0 to pendingProxy
        invariant Shape() && |pieces| == i && forall p <- pieces :: IsWhole(p)
        invariant wr.All() == before + Concat(pieces) && HeldBack(start, wr.sent, wr.data)
        invariant Obtained(all, pieces, k, upstream.buf.data, upstream.server.wire)
        invariant ReadsWork(upstream.server.net) && Received(all, pendingProxy).Some? ==> k == i
      {
        ghost var written, held := wr.sent, wr.data;
        ghost var had, wire := upstream.buf.data, upstream.server.wire;
        if Received(all, pendingProxy).Some? {
          FewerReceived(all, i + 1, pendingProxy);
        }
        var got;
        ghost var piece;
        got, piece := upstream.RecvOne(wr);
        StillHeldBack(start, written, held, wr.sent, wr.data);
        ObtainedMore(all, pieces, k, had, wire, got, piece, upstream.buf.data, upstream.server.wire);
        ConcatAppend(pieces, piece);
        pieces, k := pieces + [piece], if got then k + 1 else k;
      }
    }

    /** Answer one non-empty command, or queue it for the upstream. */
    method Serve(argv: Argv) returns (quit: bool)
      requires Shape() && Kept() && argv != [] && Encodable(argv)
      modifies this`pendingProxy, this`hist, this`replies, this`left
      modifies wr, upstream`open, upstream.outbox, upstream.buf, upstream.server
      ensures Shape() && Kept() && hist == old(hist) + [argv] && old(replies) <= replies
      ensures quit <==> IsQuit(env, argv)
      ensures quit ==> pendingProxy == 0
      ensures old(|wr.All()|) <= |wr.All()| && HeldBack(old(wr.sent), wr.sent, wr.data)
      ensures LastFits(env, hist) ==> pendingProxy > 0 || wr.data != []
    {
      hide Kept, LastFits, HeldBack;
      var name := Upper(argv[0]);
      if env.isLocal(name) {
        DrainPending();
        ghost var written, held := wr.sent, wr.data;
        AnswerHere(argv);
        StillHeldBack(old(wr.sent), written, held, wr.sent, wr.data);
        return name == QUIT;
      } else if env.proxied {
        Queue(argv);
        NothingMoreSent(wr.sent, wr.data);
        return false;
      } else {
        NotPending();
        Refuse(argv);
        return false;
      }
    }

    lemma NotPending()
      requires Kept() && !env.proxied
      ensures pendingProxy == 0
    {
    }

    /** A local command, with nothing pending before it. */
    method AnswerHere(argv: Argv)
      requires Shape() && Kept() && pendingProxy == 0 && IsLocal(env, argv) && Encodable(argv)
      modifies this`hist, this`replies, wr
      ensures Shape() && Kept() && hist == old(hist) + [argv] && replies == old(replies) + [env.local(hist)]
      ensures old(|wr.All()|) <= |wr.All()| && HeldBack(old(wr.sent), wr.sent, wr.data)
      ensures LastFits(env, hist) ==> wr.data != []
    {
      hide EncodeReplies, Answers, Expected, Forwarded, EncodeAll, Drain, WellFormed, Encode, Concat, HeldBack, Fits,
        Upper, Encodable;
      Caught();
      AnsweredHere(env, hist, argv, wr.All());
      OneMoreFits(env, hist, argv, replies, env.local(hist + [argv]));
      hist := hist + [argv];
      wr.PutAll(env.local(hist));
      replies := replies + [env.local(hist)];
      Caught();
    }

    /** A command that nobody serves. */
    method Refuse(argv: Argv)
      requires Shape() && Kept() && pendingProxy == 0 && argv != [] && !IsLocal(env, argv) && !env.proxied
      modifies this`hist, this`replies, wr
      ensures Shape() && Kept() && hist == old(hist) + [argv] && replies == old(replies) + [env.unknown(argv[0])]
      ensures old(|wr.All()|) <= |wr.All()| && HeldBack(old(wr.sent), wr.sent, wr.data)
      ensures LastFits(env, hist) ==> wr.data != []
    {
      hide EncodeReplies, Answers, Expected, Forwarded, EncodeAll, Drain, WellFormed, Encode, Concat, HeldBack, Fits,
        Upper, Encodable;
      Caught();
      AnsweredHere(env, hist, argv, wr.All());
      OneMoreFits(env, hist, argv, replies, env.unknown(argv[0]));
      hist := hist + [argv];
      wr.Put(env.unknown(argv[0]));
      replies := replies + [env.unknown(argv[0])];
      Caught();
    }

    /** A command for the upstream: into the outbox for now. */
    method Queue(argv: Argv)
      requires Shape() && Kept() && argv != [] && !IsLocal(env, argv) && env.proxied && Encodable(argv)
      modifies this`hist, this`pendingProxy, upstream.outbox
      ensures Shape() && Kept() && hist == old(hist) + [argv] && pendingProxy == old(pendingProxy) + 1
    {
      hide Expected, Forwarded, EncodeAll, Drain, Encode, Concat, Fits, Upper, Encodable;
      SendOnly(upstream.outbox, argv);
      ghost var from := Answered();
      EncodeAllAppend(left + hist[from..], argv);
      assert (hist + [argv])[..from] == hist[..from];
      assert left + (hist + [argv])[from..] == left + hist[from..] + [argv];
      hist := hist + [argv];
      pendingProxy := pendingProxy + 1;
      assert Answered() == from;
    }

    lemma Caught()
      requires pendingProxy == 0
      ensures Answered() == |hist| && hist[..|hist|] == hist && hist[|hist|..] == []
      ensures EncodeAll([]) == []
    {
    }

    /** One iteration of the outer loop: append a read, handle every complete command, drain, flush. */
    method HandleRead(chunk: bytes) returns (status: Status)
      requires Shape() && Kept() && Idle()
      requires |stream| + |chunk| <= I64_MAX
      requires forall i :: 0 <= i < |hist| ==> !IsQuit(env, hist[i])
      modifies this, buf, wr, upstream`open, upstream.outbox, upstream.buf, upstream.server
      ensures Shape() && Kept() && stream == old(stream) + chunk && old(replies) <= replies
      ensures status == More ==> Idle() && forall i :: 0 <= i < |hist| ==> !IsQuit(env, hist[i])
      ensures status == ParseError ==>
                && Drain(stream).bad && hist == NonEmpty(Drain(stream).cmds)
                && forall i :: 0 <= i < |hist| ==> !IsQuit(env, hist[i])
      ensures status == Quit ==>
                && pendingProxy == 0 && hist != [] && IsQuit(env, hist[|hist| - 1])
                && hist <= NonEmpty(Drain(stream).cmds)
                && forall i :: 0 <= i < |hist| - 1 ==> !IsQuit(env, hist[i])
      ensures status != More ==> NothingSentSince(old(wr.sent), old(hist))
    {
      hide Drain, Parse, NonEmpty, Encodable, IsQuit, NothingSentSince, ParsedSoFar, Concat, Fits, Expected, Forwarded,
        EncodeAll;
      DrainAppend(stream, chunk);
      DrainFits(stream);
      ParsingStarts(stream, chunk);
      ghost var cmds := Drain(stream).cmds;
      buf.Extend(chunk);
      stream := stream + chunk;
      assert Kept();
      hide Kept;
      NothingYet();
      while true
        invariant Shape() && Kept() && stream == old(stream) + chunk && old(replies) <= replies
        invariant |buf.data| <= I64_MAX
        invariant ParsedSoFar(stream, cmds, buf.data)
        invariant hist == NonEmpty(cmds) && NothingSentSince(old(wr.sent), old(hist))
        invariant forall i :: 0 <= i < |hist| ==> !IsQuit(env, hist[i])
        decreases |buf.data|
      {
        ghost var b := buf.data;
        var poll := ParseCommand(buf);
        ParsingGoesOn(stream, cmds, b);
        if poll.Broken? {
          return ParseError;
        }
        if poll.Pending? {
          break;
        }
        ParsedIsEncodable(b);
        cmds := cmds + [poll.argv];
        if poll.argv == [] {
          continue;
        }
        var quit := ServeNext(poll.argv, old(wr.sent), old(hist));
        if quit {
          ParsedAreFirst(stream, cmds, buf.data);
          return Quit;
        }
      }
      FinishRead();
      return More;
    }

    /** Collect what is pending and hand everything to the client. */
    method FinishRead()
      requires Shape() && Kept()
      modifies this`pendingProxy, this`replies, this`left
      modifies wr, upstream`open, upstream.outbox, upstream.buf, upstream.server
      ensures Shape() && Kept() && AllSent() && old(replies) <= replies
    {
      hide Expected, Forwarded, EncodeAll, Concat, AllFit;
      DrainPending();
      wr.Flush();
    }

    /**
     Since that much was sent, for those commands, nothing more has been unless the buffer could not hold it; and the
     last command since then is still pending or held back, unless its reply alone fills the buffer.
     */
    ghost predicate NothingSentSince(sent: bytes, earlier: seq<Argv>)
      reads this, wr
    {
      && earlier <= hist && HeldBack(sent, wr.sent, wr.data)
      && (hist != earlier && LastFits(env, hist) ==> pendingProxy > 0 || wr.data != [])
    }

    lemma NothingYet()
      requires wr.data == []
      ensures NothingSentSince(wr.sent, hist)
    {
      NothingMoreSent(wr.sent, []);
    }

    method ServeNext(argv: Argv, ghost since: bytes, ghost earlier: seq<Argv>) returns (quit: bool)
      requires Shape() && Kept() && argv != [] && Encodable(argv) && NothingSentSince(since, earlier)
      modifies this`pendingProxy, this`hist, this`replies, this`left
      modifies wr, upstream`open, upstream.outbox, upstream.buf, upstream.server
      ensures Shape() && Kept() && hist == old(hist) + [argv] && old(replies) <= replies
      ensures NothingSentSince(since, earlier)
      ensures (quit <==> IsQuit(env, argv)) && (quit ==> pendingProxy == 0)
    {
      hide LastFits, HeldBack, Kept, IsQuit;
      ghost var written, held := wr.sent, wr.data;
      quit := Serve(argv);
      StillHeldBack(since, written, held, wr.sent, wr.data);
    }

    /** The whole connection on a sequence of reads; the client closes after the last one. */
    method Handle(chunks: seq<bytes>) returns (status: Status)
      requires Shape() && Kept() && Idle() && hist == [] && stream == []
      requires |Concat(chunks)| <= I64_MAX
      modifies this, buf, wr, upstream`open, upstream.outbox, upstream.buf, upstream.server
      ensures Shape() && Kept()
      ensures status == More ==>
                !Drain(Concat(chunks)).bad && hist == NonEmpty(Drain(Concat(chunks)).cmds) && AllSent()
      ensures status == More && Reliable() ==> wr.sent == Expected(env, hist)
      ensures status == ParseError ==>
                Drain(Concat(chunks)).bad && hist == NonEmpty(Drain(Concat(chunks)).cmds)
      ensures status == Quit ==>
                && pendingProxy == 0 && hist != [] && IsQuit(env, hist[|hist| - 1])
                && hist <= NonEmpty(Drain(Concat(chunks)).cmds)
      ensures forall i :: 0 <= i < |hist| - (if status == Quit then 1 else 0) ==> !IsQuit(env, hist[i])
      ensures status != More ==> exists k :: 0 <= k < |chunks| && StoppedAfter(Concat(chunks[..k]))
      ensures status == Quit && LastFits(env, hist) ==> !AllSent()
    {
      hide Drain, HeldBack, NonEmpty, IsQuit, Concat, LastFits, Kept, Shape;
      status := More;
      ReadsSoFar(chunks, 0);
      for k := 0 to |chunks|
        invariant Shape() && Kept() && Idle() && stream == Concat(chunks[..k])
        invariant forall i :: 0 <= i < |hist| ==> !IsQuit(env, hist[i])
      {
        ReadsSoFar(chunks, k);
        EverythingSent();
        ghost var before := replies;
        status := HandleRead(chunks[k]);
        if status != More {
          LaterBytesChangeNothing(stream, Concat(chunks[k + 1..]), hist);
          assert replies[..|before|] == before;
          assert StoppedAfter(Concat(chunks[..k]));
          return;
        }
      }
      assert chunks[..|chunks|] == chunks;
      SentAsOwed();
      return More;
    }

    lemma EverythingSent()
      requires Kept() && AllSent()
      ensures |replies| == |hist| && wr.sent == Concat(replies)
    {
      hide Concat, Fits, Owing;
    }

    lemma SentAsOwed()
      requires Shape() && Kept() && AllSent()
      ensures Reliable() ==> wr.sent == Expected(env, hist)
    {
      hide Concat, Fits;
      Caught();
    }
  }

  lemma ReadsSoFar(chunks: seq<bytes>, k: nat)
    requires k <= |chunks|
    ensures k == 0 ==> Concat(chunks[..k]) == []
    ensures k < |chunks| ==>
      && Concat(chunks[..k + 1]) == Concat(chunks[..k]) + chunks[k]
      && Concat(chunks) == Concat(chunks[..k + 1]) + Concat(chunks[k + 1..])
  {
    NothingRead();
    hide Concat;
    if k < |chunks| {
      OneReadMore(chunks, k);
      ConcatAppend(chunks[..k], chunks[k]);
      ConcatSplit(chunks[..k + 1], chunks[k + 1..]);
    }
  }

  lemma OneReadMore(chunks: seq<bytes>, k: nat)
    requires k < |chunks|
    ensures chunks[..k + 1] == chunks[..k] + [chunks[k]] && chunks == chunks[..k + 1] + chunks[k + 1..]
  {
  }

  lemma NothingRead()
    ensures Concat([]) == []
  {
  }

  lemma {:induction false} ConcatSplit(a: seq<bytes>, b: seq<bytes>)
    ensures Concat(a + b) == Concat(a) + Concat(b)
    decreases |a|
  {
    if a == [] {
      assert a + b == b;
    } else {
      assert (a + b)[1..] == a[1..] + b;
      ConcatSplit(a[1..], b);
    }
  }

  lemma {:induction false} ConcatAppend(chunks: seq<bytes>, chunk: bytes)
    ensures Concat(chunks + [chunk]) == Concat(chunks) + chunk
    decreases |chunks|
  {
    if chunks == [] {
      assert chunks + [chunk] == [chunk] && [chunk][1..] == [];
    } else {
      assert (chunks + [chunk])[1..] == chunks[1..] + [chunk];
      ConcatAppend(chunks[1..], chunk);
    }
  }

  lemma {:induction false} DrainFits(b: bytes)
    ensures |Drain(b).rest| <= |b|
    decreases |b|
  {
    var r := Parse(b);
    if r.Parsed? {
      DrainFits(b[r.used..]);
    }
  }

  lemma DrainUnfold(b: bytes)
    ensures Parse(b).Incomplete? ==> Drain(b) == Drained([], b, false)
    ensures Parse(b).Malformed? ==> Drain(b) == Drained([], b, true)
    ensures Parse(b).Parsed? ==>
              Drain(b) == Drained([Parse(b).argv], [], false).Then(Drain(b[Parse(b).used..]))
  {
  }

  // ----- single commands

  lemma OneLineDrains(words: Argv)
    requires (forall k :: 0 <= k < |words| ==> Words.IsWord(words[k], BLANKS)) && words != []
    requires Words.IsWord(words[0], BLANKS) && words[0][0] != STAR && Clean(Words.Join(words))
    ensures Drain(Words.Join(words) + CRLF) == Drained([words], [], false)
  {
    hide Drain, Parse;
    var line := Words.Join(words) + CRLF;
    InlineRoundTrip(words, []);
    assert line + [] == line && line[|Words.Join(words)| + 2..] == [];
    DrainUnfold(line);
    DrainNothing();
    assert [words] + [] == [words];
  }

  lemma DrainNothing()
    ensures Drain([]) == Drained([], [], false)
  {
  }

  lemma OnlyOne(cmd: Argv)
    requires cmd != []
    ensures NonEmpty([cmd]) == [cmd] && NonEmpty([]) == [] && NoneEmpty([cmd])
  {
    assert [cmd][1..] == [];
  }

  lemma OneChunk(chunk: bytes)
    ensures Concat([chunk]) == chunk && Concat([]) == []
  {
    assert [chunk][1..] == [] && chunk + [] == chunk;
  }

  /**
   A client that sends one command in a line and then closes: the reply is the one made here if a name served here is
   the command's but for case, else the answer of the upstream, or the error for an unknown command.
   */
  method OneCommand(env: Env, net: Network, words: Argv) returns (status: Status, sent: bytes)
    requires Sane(env) && (forall k :: 0 <= k < |words| ==> Words.IsWord(words[k], BLANKS)) && words != []
    requires Words.IsWord(words[0], BLANKS) && words[0][0] != STAR && Clean(Words.Join(words))
    requires |Words.Join(words) + CRLF| <= I64_MAX
    requires !(env.isLocal(QUIT) && SameButCase(QUIT, words[0]))
    ensures status == More
    ensures (exists n :: NamesIt(env, n, words)) ==> sent == env.local([words])
    ensures !(exists n :: NamesIt(env, n, words)) && !env.proxied ==> sent == env.unknown(words[0])
    ensures !(exists n :: NamesIt(env, n, words)) && env.proxied && NeverFails(net) ==>
      sent == EncodeReply(env.answer([words]))
  {
    hide Drain, IsLocal, EncodeReply, NamesIt, IsQuit, NeverFails, Clean, SameButCase, Expected, Fits, IsWhole, Concat;
    var line := Words.Join(words) + CRLF;
    var c := new Connection(env, net);
    OneChunk(line);
    OneLineDrains(words);
    OnlyOne(words);
    QuitIff(env, words);
    status := c.Handle([line]);
    assert c.hist == [words] || status == Quit;
    sent := c.wr.sent;
    c.AllSentIff();
    OneReply(c.replies);
    c.WrittenFor(0);
    assert c.hist[..1] == [words];
    OwedAlone(env, words);
    assert env.proxied && NeverFails(net) ==> sent == Expected(env, [words]);
  }

  lemma OwedAlone(env: Env, cmd: Argv)
    requires cmd != []
    ensures NoneEmpty([cmd])
    ensures (exists n :: NamesIt(env, n, cmd)) ==> Expected(env, [cmd]) == env.local([cmd])
    ensures !(exists n :: NamesIt(env, n, cmd)) && !env.proxied ==> Expected(env, [cmd]) == env.unknown(cmd[0])
    ensures !(exists n :: NamesIt(env, n, cmd)) && env.proxied ==>
      Expected(env, [cmd]) == EncodeReply(env.answer([cmd]))
  {
    hide NamesIt, EncodeReply, Expected, Forwarded;
    OwedForNext(env, [], cmd);
    assert [] + [cmd] == [cmd];
  }

  lemma OneReply(replies: seq<bytes>)
    requires |replies| == 1
    ensures Concat(replies) == replies[0]
  {
    OneChunk(replies[0]);
    assert replies == [replies[0]];
  }

  /** "get k" is a GET. */
  method SmallLettersWillDo(env: Env, net: Network) returns (status: Status, sent: bytes)
    requires Sane(env) && env.isLocal([71, 69, 84])
    ensures status == More && sent == env.local([[[103, 101, 116], [107]]])
  {
    var words := [[103, 101, 116], [107]];
    assert Words.Join(words) == [103, 101, 116, 32, 107] by {
      assert words[1..] == [[107]];
    }
    assert NamesIt(env, [71, 69, 84], words);
    status, sent := OneCommand(env, net, words);
  }

  // ----- two connections that end early

  /** A client that sends QUIT, in any case, is owed an answer and gets none. */
  method QuitGoesUnanswered(env: Env, net: Network, quit: bytes)
    returns (status: Status, sent: bytes, ghost owed: bytes)
    requires Sane(env) && env.isLocal([81, 85, 73, 84]) && SameButCase([81, 85, 73, 84], quit)
    requires |env.local([[quit]])| < WRITER_CAPACITY
    ensures status == Quit && sent == [] && owed == env.local([[quit]]) != []
  {
    hide Drain, IsLocal, NamesIt, IsQuit, Concat, Expected, Fits;
    var c := new Connection(env, net);
    OneChunk(quit + CRLF);
    QuitIsWord(quit);
    assert Words.Join([quit]) == quit;
    OneLineDrains([quit]);
    OnlyOne([quit]);
    QuitIff(env, [quit]);
    status := c.Handle([quit + CRLF]);
    OneReply(c.replies);
    c.WrittenFor(0);
    assert NamesIt(env, [81, 85, 73, 84], [quit]) by {
      QuitNames(env, quit);
    }
    assert c.hist == [[quit]] && c.hist[..1] == [[quit]];
    OwedAlone(env, [quit]);
    owed := Expected(env, c.hist);
    sent := c.wr.sent;
    DrainNothing();
    c.NoneSentSince([]);
  }

  lemma QuitIsWord(quit: bytes)
    requires SameButCase([81, 85, 73, 84], quit)
    ensures Words.IsWord(quit, BLANKS) && quit[0] != STAR && Clean(quit)
  {
    var q: bytes := [81, 85, 73, 84];
    assert SameLetter(q[0], quit[0]) && SameLetter(q[1], quit[1]) && SameLetter(q[2], quit[2]);
    assert SameLetter(q[3], quit[3]);
  }

  lemma QuitNames(env: Env, quit: bytes)
    requires env.isLocal([81, 85, 73, 84]) && SameButCase([81, 85, 73, 84], quit)
    ensures NamesIt(env, [81, 85, 73, 84], [quit])
  {
  }

  const GO: bytes := [71, 79]
  const STAR_LINE: bytes := [STAR] + CRLF

  lemma StarLineIsMalformed()
    ensures Drain(STAR_LINE) == Drained([], STAR_LINE, true)
  {
    assert IntLineAt(STAR_LINE, 1).BadLine?;
  }

  lemma GoThenStarDrains()
    ensures Drain(GO + CRLF + STAR_LINE) == Drained([[GO]], STAR_LINE, true)
  {
    hide Drain, Parse;
    var line := GO + CRLF + STAR_LINE;
    assert GO == Words.Join([GO]);
    InlineRoundTrip([GO], STAR_LINE);
    assert line[4..] == STAR_LINE;
    DrainUnfold(line);
    StarLineIsMalformed();
    assert [[GO]] + [] == [[GO]];
  }

  /** A forwarded command followed by a malformed one is not answered either. */
  method MalformedLosesPending(env: Env, net: Network) returns (status: Status, sent: bytes, ghost owed: bytes)
    requires NeverFails(net) && Sane(env) && env.proxied && !env.isLocal(GO)
    requires |EncodeReply(env.answer([[GO]]))| < WRITER_CAPACITY
    ensures status == ParseError && sent == [] && owed == EncodeReply(env.answer([[GO]])) != []
  {
    hide Drain, Upper, EncodeReply;
    var line := GO + CRLF + STAR_LINE;
    var c := new Connection(env, net);
    assert Concat([line]) == line + Concat([]) == line;
    GoThenStarDrains();
    DrainNothing();
    UpperGo();
    status := c.Handle([line]);
    assert NonEmpty([[GO]]) == [[GO]];
    owed := Expected(env, c.hist);
    OwedToGo(env);
    ExpectedGrows(env, c.hist[..c.Answered()], c.hist);
    sent := c.wr.sent;
    c.NoneSentSince([]);
  }

  lemma OwedToGo(env: Env)
    requires env.proxied && !env.isLocal(GO)
    ensures Expected(env, [[GO]]) == EncodeReply(env.answer([[GO]])) && Expected(env, []) == []
  {
    hide EncodeReply, Upper;
    UpperGo();
    ExpectedStep(env, [], [GO]);
    assert [] + [[GO]] == [[GO]];
    assert ReplyToLast(env, [[GO]]) == EncodeReply(env.answer([[GO]]));
  }

  lemma UpperGo()
    ensures Upper(GO) == GO
  {
  }
}
