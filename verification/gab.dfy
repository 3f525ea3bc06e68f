// The Gab object: its inbound framing state, updated in place by
// handleRead, and its outbound queue, updated by push, initiateSend, send
// and the socket's connect event.

module GabModel {
  import opened Terminators
  import opened Framing

  class Gab {
    // Inbound framing.
    var inBuffer: string
    var terminator: Terminator
    /** Every call made on the consumer's hooks so far, in order. */
    var log: seq<Event>
    /** How the consumer's foundTerminator reassigns the terminator, given
        everything it has been handed up to and including that call. */
    const consumer: seq<Event> -> Reaction

    // Outbound queue.
    var fifo: seq<string>
    var connected: bool
    /** Payloads of the one-shot "connect" listeners that send registered
        while disconnected, in registration order. */
    var deferred: seq<string>
    /** Every socket.write call so far, in order. */
    var written: seq<string>
    /** Every payload ever pushed, in order. */
    ghost var pushed: seq<string>

    /** Every payload pushed has been written, is waiting for the connect
        event, or is still queued, in push order; once connected nothing
        waits for the connect event. */
    ghost predicate Valid()
      reads this
    {
      && pushed == written + deferred + fifo
      && (connected ==> deferred == [])
    }

    /** The framing state handleRead works on. */
    function State(): Framer
      reads this
    {
      Framer(inBuffer, terminator, log)
    }

    /** new Gab(cfg): empty buffer and queue, the configured terminator or
        CR LF when none (or a falsy one) is configured, not connected. */
    constructor (cfgTerminator: Terminator, consumer: seq<Event> -> Reaction)
      ensures Valid()
      ensures inBuffer == [] && terminator == InitialTerminator(cfgTerminator) && log == []
      ensures fifo == [] && !connected && deferred == [] && written == [] && pushed == []
      ensures this.consumer == consumer
    {
      inBuffer := [];
      terminator := InitialTerminator(cfgTerminator);
      log := [];
      this.consumer := consumer;
      fifo := [];
      connected := false;
      deferred := [];
      written := [];
      pushed := [];
    }

    /** The consumer's collectIncomingData hook; never called with "". */
    method CollectIncomingData(data: string)
      requires data != []
      modifies this`log
      ensures log == old(log) + [Collect(data)]
    {
      log := log + [Collect(data)];
    }

    /** The consumer's foundTerminator hook, which may assign a new
        terminator. */
    method FoundTerminator(matched: string)
      modifies this`log, this`terminator
      ensures log == old(log) + [Found(matched)]
      ensures terminator == match consumer(log) { case Keep => old(terminator) case Retarget(t) => t }
    {
      log := log + [Found(matched)];
      match consumer(log) {
        case Keep =>
        case Retarget(t) => terminator := t;
      }
    }

    /** handleRead(data): append the chunk, then run the framing loop until
        the buffer is empty or findPrefixAtEnd returns a non-zero offset. */
    method HandleRead(data: string)
      modifies this`inBuffer, this`terminator, this`log
      ensures State() == Read(old(State()), data, consumer)
    {
      ghost var f0 := State();
      inBuffer := inBuffer + data;
      ghost var whole := Scan(inBuffer, terminator, consumer, log);
      ghost var emitted: seq<Event> := [];
      ghost var o := whole;
      while inBuffer != []
        invariant log == f0.log + emitted
        invariant o == Scan(inBuffer, terminator, consumer, log)
        invariant whole == Outcome(emitted + o.events, o.rest, o.term)
        decreases |inBuffer|
      {
        var stop, events := ReadPass();
        EventsAssoc(f0.log, emitted, events);
        if stop {
          Regroup(whole, emitted, events, o, Outcome([], inBuffer, terminator));
          emitted := emitted + events;
          break;
        }
        ghost var o2 := Scan(inBuffer, terminator, consumer, log);
        Regroup(whole, emitted, events, o, o2);
        emitted := emitted + events;
        o := o2;
      }
      ReadFromLoop(f0, data, consumer, whole, emitted, State());
    }

    /** One round of handleRead's loop on a non-empty buffer: the hooks it
        calls are `events`; `stop` is the loop's `break`, taken exactly when
        findPrefixAtEnd returns a non-zero offset, and the loop ends there;
        otherwise the buffer has shrunk and the rest of the loop runs from
        the new state. */
    method ReadPass() returns (stop: bool, ghost events: seq<Event>)
      requires inBuffer != []
      modifies this`inBuffer, this`terminator, this`log
      ensures var p := Pass(old(inBuffer), old(terminator));
              && events == p.events && inBuffer == p.rest
              && terminator == After(p, consumer, old(log)) && stop == p.halt
      ensures log == old(log) + events
      ensures stop ==> Scan(old(inBuffer), old(terminator), consumer, old(log))
                       == Outcome(events, inBuffer, terminator)
      ensures !stop ==> |inBuffer| < |old(inBuffer)|
      ensures !stop ==> Scan(old(inBuffer), old(terminator), consumer, old(log))
                        == (var o := Scan(inBuffer, terminator, consumer, log);
                            Outcome(events + o.events, o.rest, o.term))
    {
      ghost var buf, t, before := inBuffer, terminator, log;
      ghost var p := Pass(buf, t);
      if Falsy(terminator) {
        // no terminator, collect it all
        CollectIncomingData(inBuffer);
        inBuffer := [];
        stop := false;
      } else if terminator.Count? {
        CountRound(terminator.n);
        stop := false;
      } else {
        stop := LiteralRound(terminator.s);
      }
      events := p.events;
      if stop {
        ScanHalts(buf, t, consumer, before);
      } else {
        ScanUnfold(buf, t, consumer, before);
      }
    }

    /** A round with `n` bytes still to go: collect at most `n` of them and
        call foundTerminator once all `n` have arrived. */
    method CountRound(n: nat)
      requires inBuffer != [] && n > 0 && terminator == Count(n)
      modifies this`inBuffer, this`terminator, this`log
      ensures var p := CountPass(old(inBuffer), n);
              && log == old(log) + p.events
              && inBuffer == p.rest
              && terminator == After(p, consumer, old(log))
    {
      var dataLen := |inBuffer|;
      if dataLen < n {
        CollectIncomingData(inBuffer);
        terminator := Count(n - dataLen);
        inBuffer := [];
      } else {
        CollectIncomingData(inBuffer[..n]);
        inBuffer := inBuffer[n..];
        terminator := Count(0);
        FoundTerminator([]);
      }
    }

    /** A round with the literal terminator `s`: split at its first
        occurrence, or else keep what findPrefixAtEnd leaves and stop. */
    method LiteralRound(s: string) returns (stop: bool)
      requires inBuffer != [] && s != [] && terminator == Literal(s)
      modifies this`inBuffer, this`terminator, this`log
      ensures var p := LiteralPass(old(inBuffer), s);
              && log == old(log) + p.events
              && inBuffer == p.rest
              && terminator == After(p, consumer, old(log))
              && stop == p.halt
    {
      var dataLen := |inBuffer|;
      var index := IndexOf(inBuffer, s);
      if index != -1 {
        if index > 0 {
          CollectIncomingData(inBuffer[..index]);
        }
        inBuffer := inBuffer[index + |s|..];
        FoundTerminator(s);
        stop := false;
      } else {
        index := FindPrefixAtEnd(inBuffer, s);
        if index != 0 {
          if index != dataLen {
            // substring clamps the offset to the buffer length
            var cut := if index < dataLen then index else dataLen;
            CollectIncomingData(inBuffer[..cut]);
            inBuffer := inBuffer[cut..];
          }
          stop := true;
        } else {
          CollectIncomingData(inBuffer);
          inBuffer := [];
          stop := false;
        }
      }
    }

    /** send(data): write now when connected, otherwise register a one-shot
        "connect" listener that writes the payload. */
    method Send(data: string)
      modifies this`written, this`deferred
      ensures connected ==> written == old(written) + [data] && deferred == old(deferred)
      ensures !connected ==> deferred == old(deferred) + [data] && written == old(written)
    {
      if !connected {
        deferred := deferred + [data];
      } else {
        written := written + [data];
      }
    }

    /** initiateSend(): hand the head of the queue, if any, to send. */
    method InitiateSend()
      requires Valid()
      modifies this`fifo, this`written, this`deferred
      ensures Valid()
      ensures old(fifo) == [] ==> fifo == [] && written == old(written) && deferred == old(deferred)
      ensures old(fifo) != [] ==> fifo == old(fifo)[1..]
                                  && written + deferred == old(written) + old(deferred) + [old(fifo)[0]]
      ensures connected && old(fifo) != [] ==> written == old(written) + [old(fifo)[0]]
      ensures !connected ==> written == old(written)
    {
      if fifo != [] {
        var data := fifo[0];
        fifo := fifo[1..];
        Send(data);
      }
    }

    /** push(data): queue the payload and initiate a send, so the queue
        keeps its length and payloads leave it in push order. */
    method Push(data: string)
      requires Valid()
      modifies this`fifo, this`written, this`deferred, this`pushed
      ensures Valid()
      ensures pushed == old(pushed) + [data]
      ensures |fifo| == |old(fifo)|
      ensures written + deferred == old(written) + old(deferred) + [(old(fifo) + [data])[0]]
      ensures connected ==> written == old(written) + [(old(fifo) + [data])[0]]
      ensures !connected ==> written == old(written)
    {
      fifo := fifo + [data];
      pushed := pushed + [data];
      InitiateSend();
    }

    /** handleConnect(): the connection is established. */
    method HandleConnect()
      modifies this`connected
      ensures connected
    {
      connected := true;
    }

    /** The socket's "connect" event: handleConnect runs, then every
        listener send registered fires once, in registration order, writes
        its payload and removes itself. */
    method ConnectEvent()
      requires Valid()
      modifies this`connected, this`written, this`deferred
      ensures Valid()
      ensures connected && deferred == []
      ensures written == old(written) + old(deferred)
      ensures fifo == [] ==> written == pushed
    {
      HandleConnect();
      written := written + deferred;
      deferred := [];
    }
  }

  /** Moving one round's events from the loop's remaining outcome to what
      it has already emitted leaves the whole outcome unchanged. */
  lemma Regroup(whole: Outcome, emitted: seq<Event>, events: seq<Event>, o: Outcome, o2: Outcome)
    requires whole == Outcome(emitted + o.events, o.rest, o.term)
    requires o == Outcome(events + o2.events, o2.rest, o2.term)
    ensures whole == Outcome((emitted + events) + o2.events, o2.rest, o2.term)
  {
    EventsAssoc(emitted, events, o2.events);
  }

  /** A loop that has emitted the whole outcome of Scan ends in the state
      Read describes. */
  lemma ReadFromLoop(f: Framer, data: string, consumer: seq<Event> -> Reaction,
                     whole: Outcome, emitted: seq<Event>, g: Framer)
    requires whole == Scan(f.buffer + data, f.term, consumer, f.log)
    requires whole == Outcome(emitted, g.buffer, g.term) && g.log == f.log + emitted
    ensures g == Read(f, data, consumer)
  {
  }

  /** Three payloads pushed before the connection is up are written once
      each, in push order, when the connect event fires. */
  method PushBeforeConnect(p1: string, p2: string, p3: string) returns (w: seq<string>)
    ensures w == [p1, p2, p3]
  {
    var g := new Gab(None, KeepAll);
    g.Push(p1);
    g.Push(p2);
    g.Push(p3);
    assert g.written == [] && g.fifo == [];
    g.ConnectEvent();
    w := g.written;
  }
}
