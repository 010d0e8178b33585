/** The frame writer: it drains the transmit queue into the free space of the send buffer. */
module ProtoMessageSenders {
  import opened ByteStrings
  import opened Framing
  import opened CharArrayBuffers

  const BUFFER_SIZE_LIMIT: nat := 50

  /** The transmit queue an endpoint shares with its writer. */
  class TransmitQueue {
    var items: seq<Message>

    constructor ()
      ensures items == []
    {
      items := [];
    }

    predicate IsFull()
      reads this
    {
      |items| >= BUFFER_SIZE_LIMIT
    }

    /** EndpointBase::send: a full queue refuses the message and changes nothing. */
    method Send(m: Message) returns (accepted: bool)
      modifies this
      ensures accepted == (|old(items)| < 50)
      ensures items == if accepted then old(items) + [m] else old(items)
    {
      accepted := |items| < BUFFER_SIZE_LIMIT;
      if accepted {
        items := items + [m];
      }
    }

    method PopFront()
      requires items != []
      modifies this
      ensures items == old(items)[1..]
    {
      items := items[1..];
    }
  }

  /** How many messages from the front of `q` have frames that fit one after the other. */
  function Fits(space: int, q: seq<Message>): (k: nat)
    ensures k <= |q|
  {
    if q == [] || space < |q[0]| + HEAD_SIZE then 0
    else 1 + Fits(space - (|q[0]| + HEAD_SIZE), q[1..])
  }

  /** `Fits` is the longest prefix of the queue whose frames fit. */
  lemma {:induction false} FitsIsMaximal(e: Endianness, space: nat, q: seq<Message>)
    requires e.Settled()
    ensures var k := Fits(space, q);
            && |Frames(e, q[..k])| <= space
            && (k < |q| ==> |Frames(e, q[..k + 1])| > space)
  {
    assert q[..0] == [];
    if q != [] {
      var k := Fits(space, q);
      if k == 0 {
        assert q[..1] == [q[0]] && q[..1][1..] == [];
      } else {
        FitsIsMaximal(e, space - (|q[0]| + HEAD_SIZE), q[1..]);
        assert q[..k][0] == q[0] && q[..k][1..] == q[1..][..k - 1];
        if k < |q| {
          assert q[..k + 1][0] == q[0] && q[..k + 1][1..] == q[1..][..k];
        }
      }
    }
  }

  datatype SpaceResult = Wrote(consumed: nat) | Unsettled

  /** The loop has taken `k` messages from the front of `q` and written just their frames. */
  ghost predicate Moved(e: Endianness, k: nat, q: seq<Message>, g: Bytes, q': seq<Message>, g': Bytes, n: int)
    requires k <= |q|
  {
    && q' == q[k..]
    && if k == 0 then g' == g && n == 0
       else
         && e.Settled()
         && n == |Frames(e, q[..k])| <= |g|
         && g' == Overlay(g, 0, Frames(e, q[..k]))
  }

  lemma MovedNothing(e: Endianness, q: seq<Message>, g: Bytes)
    ensures Moved(e, 0, q, g, q, g, 0)
  {
  }

  /** A pass of the writer over an empty send buffer of `size` bytes moves nothing exactly when
      the queue is empty or its front frame is longer than the whole buffer -- and then no later
      pass moves anything either, since only the front is ever tried. */
  lemma FrontBlocks(size: nat, q: seq<Message>, later: seq<Message>)
    ensures Fits(size, q) == 0 <==> q == [] || |q[0]| + HEAD_SIZE > size
    ensures q != [] && Fits(size, q) == 0 ==> Fits(size, q + later) == 0
  {
  }

  lemma MovesOneMore(e: Endianness, k: nat, q: seq<Message>, g: Bytes, g': Bytes, g'': Bytes, n: nat)
    requires k < |q| && e.Settled() && n + HEAD_SIZE + |q[k]| <= |g|
    requires Moved(e, k, q, g, q[k..], g', n)
    requires g'' == Overlay(g', n, Frame(e, q[k]))
    ensures Moved(e, k + 1, q, g, q[k..][1..], g'', n + HEAD_SIZE + |q[k]|)
  {
    assert q[..k + 1] == q[..k] + [q[k]];
    FramesAppend(e, q[..k], [q[k]]);
    assert Frames(e, [q[k]]) == Frame(e, q[k]) by {
      assert [q[k]][1..] == [];
      assert Frame(e, q[k]) + [] == Frame(e, q[k]);
    }
    if k == 0 {
      assert q[..0] == [];
      assert [] + Frame(e, q[0]) == Frame(e, q[0]);
    } else {
      OverlayChain(g, 0, Frames(e, q[..k]), n, Frame(e, q[k]));
    }
  }

  class ProtoMessageSender {
    var endianness: Endianness
    /** Whether the owning endpoint still exists. */
    var endpointAlive: bool

    constructor (endpointAlive: bool)
      ensures endianness == DUNNO && this.endpointAlive == endpointAlive
    {
      endianness := DUNNO;
      this.endpointAlive := endpointAlive;
    }

    method SetEndianness(e: Endianness)
      modifies this`endianness
      ensures endianness == e
    {
      endianness := e;
    }

    /** The frame of one message, in the order in force. */
    method WriteFrame(chars: CharArrayBuffer, m: Message)
      requires chars.Valid() && endianness.Settled()
      requires chars.current + HEAD_SIZE + |m| <= chars.size
      modifies chars`current, chars.store
      ensures chars.Valid() && chars.OnlyRegionsWritten()
      ensures chars.current == old(chars.current) + HEAD_SIZE + |m|
      ensures chars.Stream() == Overlay(old(chars.Stream()), old(chars.current), Frame(endianness, m))
    {
      ghost var g, at := chars.Stream(), chars.current;
      if endianness.LITTLE? {
        chars.WriteLittleEndian(|m|);
      } else {
        chars.Write(|m|);
      }
      OverlayChain(g, at, Header(endianness, |m|), chars.current, m);
      var _ := chars.XSPutN(m);
    }

    /** How many messages a pass over `space` bytes moves, when it does not throw. */
    ghost function Takes(space: nat, q: seq<Message>): nat
      reads this
    {
      if endpointAlive then Fits(space, q) else 0
    }

    method WriteFrames(chars: CharArrayBuffer, txq: TransmitQueue) returns (r: SpaceResult)
      requires chars.Valid() && chars.current == 0
      modifies chars`current, chars.store, txq
      ensures chars.Valid() && chars.OnlyRegionsWritten()
      ensures r.Unsettled? <==> Takes(chars.size, old(txq.items)) > 0 && !endianness.Settled()
      ensures if r.Unsettled? then Moved(endianness, 0, old(txq.items), old(chars.Stream()), txq.items, chars.Stream(), 0)
              else Moved(endianness, Takes(chars.size, old(txq.items)), old(txq.items), old(chars.Stream()),
                         txq.items, chars.Stream(), r.consumed)
      ensures !endpointAlive ==>
                r == Wrote(0) && txq.items == old(txq.items) && chars.Stream() == old(chars.Stream())
    {
      hide Overlay, Gather, Moved, Frame;
      var consumed: nat := 0;
      ghost var k: nat, q, g := 0, txq.items, chars.Stream();
      MovedNothing(endianness, q, g);
      while endpointAlive
        invariant chars.Valid() && chars.OnlyRegionsWritten()
        invariant !endpointAlive ==> k == 0
        invariant k <= |q| && consumed == chars.current <= chars.size == |g|
        invariant txq.items == q[k..]
        invariant if k == 0 then consumed == 0 && chars.Stream() == g else endianness.Settled()
        invariant Moved(endianness, k, q, g, txq.items, chars.Stream(), consumed)
        invariant Takes(chars.size, q) == if endpointAlive then k + Fits(chars.size - consumed, q[k..]) else 0
        decreases |txq.items|
      {
        if !txq.IsFull() {
          if txq.items == [] {
            break;
          }
        }
        var m := txq.items[0];
        var messageSize := |m| + HEAD_SIZE;
        if chars.RemainingSpace() < messageSize {
          break;
        }
        if !endianness.Settled() {
          return Unsettled;
        }
        ghost var g' := chars.Stream();
        WriteFrame(chars, m);
        MovesOneMore(endianness, k, q, g, g', chars.Stream(), consumed);
        txq.PopFront();
        consumed := consumed + messageSize;
        assert q[k..][1..] == q[k + 1..];
        k := k + 1;
      }
      return Wrote(consumed);
    }

    /** Writes the longest run of frames that fits into the regions, in queue order, and removes
        exactly those messages; with the order unsettled it throws before the first write. */
    method CheckForSpace(store: array<byte>, data: seq<Region>, txq: TransmitQueue) returns (r: SpaceResult)
      requires Within(data, store.Length) && Disjoint(data) && Total(data) <= INT_MAX
      modifies store, txq
      ensures forall i :: 0 <= i < store.Length && !Covered(data, i) ==> store[i] == old(store[i])
      ensures r.Unsettled? <==> Takes(Total(data), old(txq.items)) > 0 && !endianness.Settled()
      ensures if r.Unsettled? then
                Moved(endianness, 0, old(txq.items), old(Gather(store[..], data)), txq.items, Gather(store[..], data), 0)
              else
                Moved(endianness, Takes(Total(data), old(txq.items)), old(txq.items), old(Gather(store[..], data)),
                      txq.items, Gather(store[..], data), r.consumed)
      ensures !endpointAlive ==>
                r == Wrote(0) && txq.items == old(txq.items) && Gather(store[..], data) == old(Gather(store[..], data))
    {
      var chars := new CharArrayBuffer(store, data);
      r := WriteFrames(chars, txq);
    }
  }
}
