/** EndpointBase: its fields, and each of its locked regions and completion phases run by one
    thread.  What happens between them is in EndpointProtocol. */
module EndpointBases {
  import opened Wrappers
  import opened Framing
  import opened CharArrayBuffers
  import opened RingBuffers
  import opened ProtoMessageReaders
  import opened ProtoMessageSenders
  import opened EndpointStates

  class EndpointBase {
    const sendBuffer: RingBuffer
    const readBuffer: RingBuffer
    const txq: TransmitQueue
    const reader: ProtoMessageReader
    const writer: ProtoMessageSender
    var state: Bits
    var asioSending: bool
    var asioReading: bool
    var readNeeded: nat
    // which of the terminal handlers are installed
    var onEof: bool
    var onError: bool
    var onProtoError: bool
    /** The terminal handlers called so far. */
    var notified: seq<Terminal>

    ghost predicate Valid()
      reads this, sendBuffer, readBuffer, reader, writer
    {
      && sendBuffer.Valid() && readBuffer.Valid()
      && sendBuffer != readBuffer && sendBuffer.store != readBuffer.store
      && 0 < sendBuffer.size <= INT_MAX && 0 < readBuffer.size <= INT_MAX
      && reader.endpointAlive && writer.endpointAlive
      && reader.endianness == writer.endianness
    }

    ghost function View(): (c: Core)
      reads this, sendBuffer, sendBuffer.store, readBuffer, readBuffer.store, reader, writer, txq
      requires Valid()
      ensures c.Valid()
    {
      Core(state, asioSending, asioReading, readNeeded, writer.endianness, txq.items,
           sendBuffer.size, sendBuffer.Contents(), readBuffer.size, readBuffer.Contents(),
           Handlers(onEof, onError, onProtoError))
    }

    constructor (sendBufferSize: nat, readBufferSize: nat)
      requires 0 < sendBufferSize <= INT_MAX && 0 < readBufferSize <= INT_MAX
      ensures Valid()
      ensures View() == Core(Bits(false, false, false, false), false, false, 0, DUNNO, [],
                             sendBufferSize, [], readBufferSize, [],
                             Handlers(false, false, false))
      ensures notified == []
    {
      sendBuffer := new RingBuffer(sendBufferSize);
      readBuffer := new RingBuffer(readBufferSize);
      txq := new TransmitQueue();
      reader := new ProtoMessageReader(true);
      writer := new ProtoMessageSender(true);
      state := Bits(false, false, false, false);
      asioSending := false;
      asioReading := false;
      readNeeded := 0;
      onEof := false;
      onError := false;
      onProtoError := false;
      notified := [];
    }

    method Send(m: Message) returns (accepted: bool)
      requires Valid()
      modifies txq
      ensures Valid() && accepted == (|old(View()).txq| < 50)
      ensures View() == if accepted then old(View()).(txq := old(View()).txq + [m]) else old(View())
    {
      accepted := txq.Send(m);
    }

    method CreateMessages() returns (raised: bool)
      requires Valid()
      modifies sendBuffer, sendBuffer.store, txq
      ensures Valid()
      ensures raised == EndpointStates.CreateMessages(old(View())).Refusing?
      ensures View() == if raised then old(View()) else EndpointStates.CreateMessages(old(View())).core
    {
      hide Fits, Frames, Overlay, Gather, Moved, Covered, InWindow, EndpointStates.CreateMessages;
      ghost var c, g := View(), sendBuffer.Space();
      sendBuffer.SpaceRegionsAreFree();
      var space := sendBuffer.GetSpaceBuffers();
      label before:
      var r := writer.CheckForSpace(sendBuffer.store, space, txq);
      sendBuffer.WritingSpaceKeepsContents@before();
      sendBuffer.SpaceRegionsAreFree();
      raised := r.Unsettled?;
      if raised {
        UnsettledRefuses(c, g, txq.items, sendBuffer.Space());
      } else {
        WriterPassCreates(c, txq.items, g, sendBuffer.Space(), r.consumed);
        sendBuffer.MarkSpaceUsed(r.consumed);
      }
    }

    /** What async_write is given to send: nothing at all when the ring is completely full. */
    method AsyncWrite() returns (data: seq<Region>)
      requires Valid()
      ensures Within(data, sendBuffer.size)
      ensures Gather(sendBuffer.store[..], data) == Shown(View().sendSize, View().sendData)
    {
      data := sendBuffer.GetDataBuffers();
    }

    /** run_sending: the locked region, and the regions whose bytes are then written, if any. */
    method RunSending() returns (start: SendStart, data: seq<Region>)
      requires Valid()
      modifies this`asioSending, sendBuffer, sendBuffer.store, txq
      ensures Valid()
      ensures (View(), start) == EndpointStates.RunSending(old(View()))
      ensures Within(data, sendBuffer.size)
      ensures Gather(sendBuffer.store[..], data) ==
              if start.Claimed? then Shown(View().sendSize, View().sendData) else []
    {
      hide EndpointStates.CreateMessages;
      data := [];
      if asioSending || state.Value() != RUNNING_ENDPOINT {
        return Exit, data;
      }
      if sendBuffer.GetDataAvailable() == 0 {
        var raised := CreateMessages();
        if raised {
          return Raised, data;
        }
      }
      if sendBuffer.GetDataAvailable() == 0 {
        return Idle, data;
      }
      asioSending := true;
      data := AsyncWrite();
      return Claimed, data;
    }

    method Close()
      requires Valid()
      modifies this`state
      ensures Valid() && View() == EndpointStates.Close(old(View()))
    {
      state := state.(closed := true);
    }

    /** eof, error and proto_error: an early test, one locked region, and the handler taken
        out of it called at most once. */
    method End(kind: Terminal)
      requires Valid()
      modifies this`state, this`onEof, this`onError, this`onProtoError, this`notified
      ensures Valid()
      ensures var (c, called) := Ended(old(View()), kind); View() == c && notified == old(notified) + called
      ensures state == if (if kind.Eof? then old(state).eof else old(state).errored) then old(state)
                       else Bits(old(state).running, true, old(state).eof || kind.Eof?, old(state).errored || !kind.Eof?)
    {
      if (kind.Eof? && state.eof) || (!kind.Eof? && state.errored) {
        return;
      }
      state := if kind.Eof? then state.(eof := true, closed := true) else state.(errored := true, closed := true);
      var handler := match kind case Eof => onEof case Error => onError case ProtoError => onProtoError;
      onEof := false;
      onError := false;
      onProtoError := false;
      if handler {
        notified := notified + [kind];
      }
    }

    method CompleteSending(ec: Ec, bytes: nat)
      requires Valid() && (ec.Success? ==> bytes <= |View().sendData|)
      modifies this, sendBuffer, sendBuffer.store, txq
      ensures Valid()
      ensures var (c, called) := CompletedWrite(old(View()), ec, bytes);
              View() == c && notified == old(notified) + called
      ensures !ec.Success? && !old(state).IsDead() ==>
                state == Bits(old(state).running, true, ec.EofOrAborted?, ec.Failed?)
    {
      hide EndpointStates.Transmitted;
      if state.Value() > RUNNING_ENDPOINT {
        return;
      }
      match ec {
        case EofOrAborted =>
          state := state.(closed := true);
          End(Eof);
        case Failed =>
          End(Error);
        case Success =>
          Transmitted(bytes);
      }
    }

    /** complete_sending once the write has succeeded. */
    method Transmitted(bytes: nat)
      requires Valid() && bytes <= |View().sendData|
      modifies this, sendBuffer, sendBuffer.store, txq
      ensures Valid()
      ensures View() == EndpointStates.Transmitted(old(View()), bytes) && notified == old(notified)
    {
      hide EndpointStates.CreateMessages, EndpointStates.RunSending;
      sendBuffer.MarkDataUsed(bytes);
      var raised := CreateMessages();
      if raised {
        Close();
      } else {
        asioSending := false;
        var _, _ := RunSending();
      }
    }

    /** run_reading: the locked region -- how many bytes to ask for, if any -- and the regions they are
        then read into, unless none are asked for. */
    method RunReading() returns (want: Option<nat>, space: seq<Region>)
      requires Valid()
      modifies this`asioReading, this`readNeeded
      ensures Valid() && (View(), want) == EndpointStates.RunReading(old(View()))
      ensures Within(space, readBuffer.size)
      ensures Gather(readBuffer.store[..], space) == if want.Some? && want.value > 0 then readBuffer.Space() else []
    {
      space := [];
      if asioReading || state.Value() != RUNNING_ENDPOINT {
        return None, space;
      }
      if readNeeded == 0 {
        return None, space;
      }
      var readNeededLocal := readNeeded;
      if readNeededLocal > readBuffer.GetFreeSpace() {
        readNeededLocal := readBuffer.GetFreeSpace();
      }
      readNeeded := 0;
      asioReading := true;
      if readNeededLocal > 0 {
        readBuffer.SpaceRegionsAreFree();
        space := readBuffer.GetSpaceBuffers();
      }
      return Some(readNeededLocal), space;
    }

    /** `startFails` says whether the onStart handler throws. */
    method Go(startFails: bool) returns (want: Option<nat>, space: seq<Region>)
      requires Valid()
      modifies this`state, this`asioReading, this`readNeeded
      ensures Valid() && (View(), want) == EndpointStates.Go(old(View()), startFails)
      ensures Within(space, readBuffer.size)
      ensures Gather(readBuffer.store[..], space) == if want.Some? && want.value > 0 then readBuffer.Space() else []
    {
      hide EndpointStates.RunReading, Gather, Window, Covered, InWindow;
      if startFails {
        state := state.(errored := true, closed := true);
      }
      state := state.(running := true);
      readNeeded := readNeeded + 1;
      want, space := RunReading();
    }

    /** The reader's pass over what the read buffer shows; a byte order it detects is set for
        the writer as well. */
    method CheckForMessage() returns (r: CheckResult)
      requires Valid()
      modifies reader`endianness, reader`completed, writer`endianness
      ensures Valid()
      ensures var o := ReaderPass(old(View()));
              && View() == old(View()).(order := o.e)
              && r == (if o.error.Some? then Threw(o.error.value) else Returned(o.consumed, o.needed))
              && reader.completed == old(reader.completed) + (if reader.hasHandler then o.bodies else [])
    {
      hide Check, Covered, InWindow, Window, Disjoint;
      var data := readBuffer.GetDataBuffers();
      assert Gather(readBuffer.store[..], data) == Shown(View().readSize, View().readData);
      r := reader.CheckForMessage(readBuffer.store, data);
      writer.SetEndianness(reader.endianness);
    }

    /** A successful read, up to the release of the token. */
    method Received(bytes: nat) returns (error: Option<ReadError>)
      requires Valid() && bytes <= View().ReadSpace()
      modifies this`asioReading, this`readNeeded, readBuffer, reader`endianness, reader`completed, writer`endianness
      ensures Valid()
      ensures var chunk := old(readBuffer.Space())[..bytes];
              && (View(), error) == EndpointStates.CompleteReading(old(View()), chunk)
              && reader.completed == old(reader.completed)
                   + (if reader.hasHandler then ReaderPass(old(View()).(readData := old(View()).readData + chunk)).bodies else [])
    {
      hide ReaderPass;
      readBuffer.MarkSpaceUsed(bytes);
      var r := CheckForMessage();
      if r.Threw? {
        return Some(r.error);
      }
      readBuffer.MarkDataUsed(r.consumed);
      readNeeded := r.needed;
      asioReading := false;
      return None;
    }

    method CompleteReading(ec: Ec, bytes: nat)
      requires Valid() && bytes <= View().ReadSpace()
      modifies this, readBuffer, reader`endianness, reader`completed, writer`endianness
      ensures Valid()
      ensures var chunk := old(readBuffer.Space())[..bytes];
              var (c, called) := CompletedRead(old(View()), ec, chunk);
              && View() == c && notified == old(notified) + called
              && reader.completed == old(reader.completed)
                   + (if reader.hasHandler then ReadBodies(old(View()), ec, chunk) else [])
      ensures !ec.Success? && !old(state).IsDead() ==>
                state == Bits(old(state).running, true, ec.EofOrAborted?, ec.Failed?)
    {
      hide ReaderPass, EndpointStates.CompleteReading, EndpointStates.RunReading, Ended;
      if state.Value() > RUNNING_ENDPOINT {
        return;
      }
      match ec {
        case EofOrAborted =>
          state := state.(closed := true);
          End(Eof);
        case Failed =>
          state := state.(errored := true);
          End(Error);
          Close();
        case Success =>
          var error := Received(bytes);
          if error.Some? {
            End(ProtoError);
          } else {
            var _, _ := RunReading();
          }
      }
    }
  }
}
