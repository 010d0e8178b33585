/** Exactly what each ending, completion and kick leaves of an endpoint, field by field, for every
    state it can meet. */
module EndpointOutcomes {
  import opened ByteStrings
  import opened Wrappers
  import opened Framing
  import opened ProtoMessageReaders
  import opened ProtoMessageSenders
  import opened EndpointStates

  const NO_HANDLERS := Handlers(false, false, false)

  /** The state word: bit 0 for running, then closed, eof and errored. */
  lemma StateWord(b: Bits)
    ensures b.Value() < 16
    ensures b.Value() % 2 == 1 <==> b.running
    ensures b.Value() / 2 % 2 == 1 <==> b.closed
    ensures b.Value() / 4 % 2 == 1 <==> b.eof
    ensures b.Value() / 8 % 2 == 1 <==> b.errored
  {
  }

  /** eof sets EOF, the two errors set ERRORED, and each closes; all three handlers go, and the one
      installed for this kind is called.  Seen once before, none of that happens. */
  lemma EndingLeaves(c: Core, kind: Terminal)
    ensures Ended(c, kind) ==
            if (if kind.Eof? then c.bits.eof else c.bits.errored) then (c, [])
            else (c.(bits := Bits(c.bits.running, true, c.bits.eof || kind.Eof?, c.bits.errored || !kind.Eof?),
                     handlers := NO_HANDLERS),
                  if (kind.Eof? && c.handlers.onEof) || (kind.Error? && c.handlers.onError)
                     || (kind.ProtoError? && c.handlers.onProtoError) then [kind] else [])
  {
  }

  // ---- completed writes ----

  /** A write that did not succeed: at the end of the stream EOF and CLOSED, otherwise ERRORED and CLOSED.
      Nothing leaves the ring, and the token is never given back. */
  lemma FailedWriteLeaves(c: Core, ec: Ec, n: nat)
    requires c.Valid() && !ec.Success?
    ensures CompletedWrite(c, ec, n).0 ==
            if c.bits.closed || c.bits.eof || c.bits.errored then c
            else c.(bits := Bits(c.bits.running, true, ec.EofOrAborted?, ec.Failed?), handlers := NO_HANDLERS)
  {
  }

  /** A write that succeeded on a live endpoint, the writer not refusing: the bytes sent leave the ring, the
      frames that now fit join it, and the token is taken again if there is anything to send. */
  lemma WriteLeaves(c: Core, n: nat)
    requires c.Valid() && n <= |c.sendData| && !(c.bits.closed || c.bits.eof || c.bits.errored)
    requires c.order.Settled() || c.txq == [] || c.SendSpace() + n < 4 + |c.txq[0]|
    ensures var d := c.(sendData := c.sendData[n..]);
            var k := Fits(d.SendSpace(), d.txq);
            var data := d.sendData + (if k == 0 then [] else Frames(c.order, d.txq[..k]));
            (k == 0 || c.order.Settled()) && CompletedWrite(c, Success, n) ==
              (c.(txq := c.txq[k..], sendData := data, sending := c.bits.running && data != []), [])
  {
    var d := c.(sendData := c.sendData[n..]);
    var k := Fits(d.SendSpace(), d.txq);
    Creates(d);
    var e := CreateMessages(d).core.(sending := false);
    if k > 0 { FramesFirst(c.order, d.txq[..k]); }
    NothingMore(d);
    hide CreateMessages, Frames, Fits;
    KickLeaves(e);
  }

  lemma Creates(c: Core)
    requires c.Valid()
    requires c.order.Settled() || c.txq == [] || c.SendSpace() < 4 + |c.txq[0]|
    ensures var k := Fits(c.SendSpace(), c.txq);
            (k == 0 || c.order.Settled()) && CreateMessages(c) ==
              Created(c.(txq := c.txq[k..], sendData := c.sendData + (if k == 0 then [] else Frames(c.order, c.txq[..k]))))
  {
  }

  /** After one pass the front no longer fits, so a second pass moves nothing. */
  lemma NothingMore(c: Core)
    requires c.Valid() && CreateMessages(c).Created?
    ensures var e := CreateMessages(c).core; e.txq == [] || e.SendSpace() < 4 + |e.txq[0]|
  {
    var k := Fits(c.SendSpace(), c.txq);
    if k == 0 {
      assert c.txq[0..] == c.txq;
    } else if k < |c.txq| {
      FitsIsMaximal(c.order, c.SendSpace(), c.txq);
      FramesAppend(c.order, c.txq[..k], [c.txq[k]]);
      assert c.txq[..k + 1] == c.txq[..k] + [c.txq[k]];
      FramesFirst(c.order, [c.txq[k]]);
      NoFrames(c.order);
      assert [c.txq[k]][1..] == [];
    }
  }

  /** A write that succeeded, when the writer refuses: the bytes leave the ring all the same, the endpoint is
      closed, and the token is never given back. */
  lemma RefusedWriteLeaves(c: Core, n: nat)
    requires c.Valid() && n <= |c.sendData| && !(c.bits.closed || c.bits.eof || c.bits.errored)
    requires !c.order.Settled() && c.txq != [] && c.SendSpace() + n >= 4 + |c.txq[0]|
    ensures CompletedWrite(c, Success, n) ==
            (c.(sendData := c.sendData[n..], bits := Bits(c.bits.running, true, false, false)), [])
  {
  }

  // ---- kicks ----

  /** run_sending: nothing unless the endpoint is running, alive and not sending; else it claims the token for
      what is in the ring or, the ring being empty, for the frames that fit, if there are any. */
  lemma KickLeaves(c: Core)
    requires c.Valid()
    ensures var ready := !c.sending && c.bits.running && !(c.bits.closed || c.bits.eof || c.bits.errored);
            var fits := c.txq != [] && 4 + |c.txq[0]| <= c.sendSize;
            var k := Fits(c.sendSize, c.txq);
            && (!ready ==> RunSending(c) == (c, Exit))
            && (ready && c.sendData != [] ==> RunSending(c) == (c.(sending := true), Claimed))
            && (ready && c.sendData == [] && !fits ==> RunSending(c) == (c, Idle))
            && (ready && c.sendData == [] && fits && !c.order.Settled() ==> RunSending(c) == (c, Raised))
            && (ready && c.sendData == [] && fits && c.order.Settled() ==>
                  k > 0 && RunSending(c) ==
                    (c.(sending := true, txq := c.txq[k..], sendData := Frames(c.order, c.txq[..k])), Claimed))
  {
    var k := Fits(c.sendSize, c.txq);
    if k > 0 && c.order.Settled() {
      FramesFirst(c.order, c.txq[..k]);
      assert [] + Frames(c.order, c.txq[..k]) == Frames(c.order, c.txq[..k]);
    }
  }

  /** run_reading: nothing unless the endpoint is running, alive, not reading and in need of bytes; else it
      claims the token and asks for them, or for what is free if that is less. */
  lemma ReadKickLeaves(c: Core)
    requires c.Valid()
    ensures RunReading(c) ==
            if c.reading || !c.bits.running || c.bits.closed || c.bits.eof || c.bits.errored || c.readNeeded == 0 then
              (c, None)
            else
              (c.(reading := true, readNeeded := 0),
               Some(if c.readNeeded + |c.readData| <= c.readSize then c.readNeeded else c.readSize - |c.readData|))
  {
  }

  /** go: RUNNING, after ERRORED and CLOSED if onStart throws; one byte more is needed, and asked for at once
      with everything else that is unless the endpoint is dead or reading. */
  lemma GoLeaves(c: Core, fails: bool)
    requires c.Valid()
    ensures var dead := fails || c.bits.closed || c.bits.eof || c.bits.errored;
            Go(c, fails).0 ==
              c.(bits := Bits(true, c.bits.closed || fails, c.bits.eof, c.bits.errored || fails),
                 reading := c.reading || !dead,
                 readNeeded := if dead || c.reading then c.readNeeded + 1 else 0)
    ensures var dead := fails || c.bits.closed || c.bits.eof || c.bits.errored;
            Go(c, fails).1 ==
              if dead || c.reading then None
              else Some(if c.readNeeded + 1 + |c.readData| <= c.readSize then c.readNeeded + 1
                        else c.readSize - |c.readData|)
  {
  }

  // ---- completed reads ----

  /** A read that did not succeed: at the end of the stream EOF and CLOSED, and the handlers go; otherwise
      ERRORED and CLOSED, and the handlers stay.  The token is never given back. */
  lemma FailedReadLeaves(c: Core, ec: Ec, chunk: Bytes)
    requires c.Valid() && !ec.Success?
    ensures CompletedRead(c, ec, chunk).0 ==
            if c.bits.closed || c.bits.eof || c.bits.errored then c
            else c.(bits := Bits(c.bits.running, true, ec.EofOrAborted?, ec.Failed?),
                    handlers := if ec.EofOrAborted? then NO_HANDLERS else c.handlers)
  {
  }

  /** A read that the reader refuses: what arrived stays in the ring, the endpoint is ERRORED and CLOSED, the
      handlers go, and the token is never given back. */
  lemma RefusedReadLeaves(c: Core, chunk: Bytes)
    requires c.Valid() && |chunk| <= c.ReadSpace() && !(c.bits.closed || c.bits.eof || c.bits.errored)
    requires ReaderPass(c.(readData := c.readData + chunk)).error.Some?
    ensures var o := ReaderPass(c.(readData := c.readData + chunk));
            CompletedRead(c, Success, chunk).0 ==
              c.(readData := c.readData + chunk, order := o.e,
                 bits := Bits(c.bits.running, true, false, true), handlers := NO_HANDLERS)
  {
    hide ReaderPass;
  }

  /** A read that it accepts, in a ring large enough: what was consumed leaves the ring, and on a running
      endpoint the token is taken again for what is needed next, or for what is free. */
  lemma AcceptedReadLeaves(c: Core, chunk: Bytes)
    requires c.Valid() && |chunk| <= c.ReadSpace() && !(c.bits.closed || c.bits.eof || c.bits.errored)
    requires ReaderPass(c.(readData := c.readData + chunk)).error.None?
    ensures var o := ReaderPass(c.(readData := c.readData + chunk));
            o.needed > 0 && CompletedRead(c, Success, chunk) ==
              (c.(readData := (c.readData + chunk)[o.consumed..], order := o.e,
                  reading := c.bits.running, readNeeded := if c.bits.running then 0 else o.needed), [])
  {
    var d := c.(readData := c.readData + chunk);
    PassLeaves(d.order, Shown(d.readSize, d.readData));
    assert ReaderPass(d).needed > 0;
    hide ReaderPass;
  }

  /** A dead endpoint ignores every completion. */
  lemma DeadIgnores(c: Core, ec: Ec, n: nat, chunk: Bytes)
    requires c.Valid() && (c.bits.closed || c.bits.eof || c.bits.errored)
    requires ec.Success? ==> n <= |c.sendData| && |chunk| <= c.ReadSpace()
    ensures CompletedWrite(c, ec, n) == (c, []) && CompletedRead(c, ec, chunk) == (c, [])
  {
  }
}
