/**
 The client's side of a connection: a buffered writer.
 */
module Output {
  import opened Bytes

  const WRITER_CAPACITY: nat := 65536

  /** Output goes to the client when it is flushed, and earlier only when the buffer would overflow. */
  class Writer {
    var sent: bytes // what has gone to the client
    var data: bytes // what is still held back

    constructor ()
      ensures sent == [] == data
    {
      sent, data := [], [];
    }

    ghost function All(): bytes
      reads this
    {
      sent + data
    }

    /** One write: a full buffer is emptied first, and a large piece is not buffered at all. */
    method Put(piece: bytes)
      modifies this
      ensures All() == old(All()) + piece && HeldBack(old(sent), sent, data)
      ensures 0 < |piece| < WRITER_CAPACITY ==> data != []
    {
      if |data| + |piece| > WRITER_CAPACITY {
        sent, data := sent + data, [];
      }
      if |piece| >= WRITER_CAPACITY {
        sent := sent + data + piece;
        data := [];
      } else {
        data := data + piece;
      }
    }

    /** A reply written piece by piece. */
    method PutAll(reply: bytes)
      modifies this
      ensures All() == old(All()) + reply && HeldBack(old(sent), sent, data)
      ensures 0 < |reply| < WRITER_CAPACITY ==> data != []
    {
      var rest := reply;
      while rest != []
        invariant All() + rest == old(All()) + reply && HeldBack(old(sent), sent, data)
        invariant |rest| <= |reply| && (|rest| < |reply| < WRITER_CAPACITY ==> data != [])
        decreases |rest|
      {
        var k: nat :| 0 < k <= |rest|;
        ghost var before, held := sent, data;
        assert All() + (rest[..k] + rest[k..]) == (All() + rest[..k]) + rest[k..];
        assert rest == rest[..k] + rest[k..];
        Put(rest[..k]);
        StillHeldBack(old(sent), before, held, sent, data);
        rest := rest[k..];
      }
      assert All() + [] == All();
    }

    method Flush()
      modifies this
      ensures sent == old(All()) && data == []
    {
      sent, data := sent + data, [];
    }
  }

  /** Nothing sent is taken back, and what came since stays in the buffer as long as it fits. */
  ghost predicate HeldBack(before: bytes, sent: bytes, data: bytes) {
    before <= sent && (|sent + data| < |before| + WRITER_CAPACITY ==> sent == before)
  }

  lemma NothingMoreSent(sent: bytes, data: bytes)
    ensures HeldBack(sent, sent, data)
  {
  }

  lemma StillHeldBack(first: bytes, sent: bytes, data: bytes, sent': bytes, data': bytes)
    requires HeldBack(first, sent, data) && HeldBack(sent, sent', data') && |sent + data| <= |sent' + data'|
    ensures HeldBack(first, sent', data')
  {
  }
}
