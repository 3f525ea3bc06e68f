// The framing loop of Gab.handleRead as a function of the buffer, the
// terminator and the consumer: one pass of the loop body (`Pass`), the whole
// loop (`Scan`) and one call of handleRead (`Read`), with what they promise.

module Framing {
  import opened Terminators

  /** A call the framer makes on its consumer: collectIncomingData(data), or
      foundTerminator(). `matched` records the terminator text that the
      match removed from the buffer ("" for a completed byte count); the
      source passes nothing, and the model keeps it only so that the text
      accounted for can be compared with the text received. */
  datatype Event = Collect(data: string) | Found(matched: string)

  /** What the consumer does to `this.terminator` inside foundTerminator:
      leave it, or assign a new value. */
  datatype Reaction = Keep | Retarget(next: Terminator)

  /** The text an event accounts for. */
  function Text(e: Event): string
  {
    match e
    case Collect(data) => data
    case Found(matched) => matched
  }

  /** All the text a sequence of events accounts for, in order: the
      collected segments with each matched terminator put back in place. */
  function Flatten(events: seq<Event>): string
  {
    if events == [] then [] else Text(events[0]) + Flatten(events[1..])
  }

  /** Only the collected segments, concatenated: what a consumer that
      appends every segment ends up holding. */
  function Collected(events: seq<Event>): string
  {
    if events == [] then []
    else (if events[0].Collect? then events[0].data else []) + Collected(events[1..])
  }

  /** Number of foundTerminator calls. */
  function FoundCount(events: seq<Event>): nat
  {
    if events == [] then 0
    else (if events[0].Found? then 1 else 0) + FoundCount(events[1..])
  }

  /** collectIncomingData is never handed the empty string. */
  predicate NoEmptyCollect(events: seq<Event>)
  {
    forall i :: 0 <= i < |events| && events[i].Collect? ==> events[i].data != []
  }

  lemma {:induction false} FlattenAppend(a: seq<Event>, b: seq<Event>)
    ensures Flatten(a + b) == Flatten(a) + Flatten(b)
    decreases |a|
  {
    if a == [] {
      assert a + b == b;
    } else {
      assert (a + b)[1..] == a[1..] + b;
      FlattenAppend(a[1..], b);
    }
  }

  lemma {:induction false} CollectedAppend(a: seq<Event>, b: seq<Event>)
    ensures Collected(a + b) == Collected(a) + Collected(b)
    decreases |a|
  {
    if a == [] {
      assert a + b == b;
    } else {
      assert (a + b)[1..] == a[1..] + b;
      CollectedAppend(a[1..], b);
    }
  }

  lemma {:induction false} FoundCountAppend(a: seq<Event>, b: seq<Event>)
    ensures FoundCount(a + b) == FoundCount(a) + FoundCount(b)
    decreases |a|
  {
    if a == [] {
      assert a + b == b;
    } else {
      assert (a + b)[1..] == a[1..] + b;
      FoundCountAppend(a[1..], b);
    }
  }

  lemma NoEmptyCollectAppend(a: seq<Event>, b: seq<Event>)
    requires NoEmptyCollect(a) && NoEmptyCollect(b)
    ensures NoEmptyCollect(a + b)
  {
    forall i | 0 <= i < |a + b| && (a + b)[i].Collect?
      ensures (a + b)[i].data != []
    {
      if i < |a| {
        assert (a + b)[i] == a[i];
      } else {
        assert (a + b)[i] == b[i - |a|];
      }
    }
  }

  /** The outcome of one pass of the handleRead loop: the calls made, the
      buffer and terminator left, whether foundTerminator was called (always
      as the last call of the pass) and whether the loop breaks. */
  datatype Step = Step(events: seq<Event>, rest: string, term: Terminator, fired: bool, halt: bool)

  /** What every pass of the loop guarantees, whichever branch it takes:
      no character is lost or duplicated (the calls account for the text
      removed from the buffer); collectIncomingData never gets ""; a pass
      that does not break shrinks the buffer; foundTerminator is called at
      most once, as the last call; and a break leaves the terminator as it
      was and keeps only text holding no complete terminator. */
  ghost predicate StepKeeps(buf: string, t: Terminator, p: Step)
  {
    && Flatten(p.events) + p.rest == buf
    && NoEmptyCollect(p.events)
    && (p.halt || |p.rest| < |buf|)
    && FoundCount(p.events) == (if p.fired then 1 else 0)
    && (p.fired ==> p.events != [] && p.events[|p.events| - 1].Found?)
    && (p.halt ==> !p.fired && p.term == t)
    && (p.halt && p.rest != [] ==>
          t.Literal? && t.s != [] && forall i :: !OccursAt(p.rest, t.s, i))
  }

  lemma SingleEvent(e: Event)
    ensures Flatten([e]) == Text(e)
    ensures Collected([e]) == (if e.Collect? then e.data else [])
    ensures FoundCount([e]) == (if e.Found? then 1 else 0)
  {
    assert [e][1..] == [];
  }

  lemma TwoEvents(a: Event, b: Event)
    ensures Flatten([a, b]) == Text(a) + Text(b)
    ensures Collected([a, b]) == Collected([a]) + Collected([b])
    ensures FoundCount([a, b]) == FoundCount([a]) + FoundCount([b])
  {
    FlattenAppend([a], [b]);
    CollectedAppend([a], [b]);
    FoundCountAppend([a], [b]);
    assert [a] + [b] == [a, b];
  }

  /** The pass for a falsy terminator (gab.js:60-64). */
  function CollectAllPass(buf: string, t: Terminator): (p: Step)
    requires buf != [] && Falsy(t)
    ensures StepKeeps(buf, t, p)
    ensures p.events == [Collect(buf)] && p.rest == [] && p.term == t
    ensures !p.fired && !p.halt
  {
    SingleEvent(Collect(buf));
    Step([Collect(buf)], [], t, false, false)
  }

  /** The pass for a positive byte count `n` (gab.js:67-80). */
  function CountPass(buf: string, n: nat): (p: Step)
    requires buf != [] && n > 0
    ensures StepKeeps(buf, Count(n), p)
    ensures p.fired <==> n <= |buf|
    ensures !p.halt
    ensures Collected(p.events) == buf[..if |buf| < n then |buf| else n]
    ensures p.rest == buf[if |buf| < n then |buf| else n..]
    ensures p.term == if |buf| < n then Count(n - |buf|) else Count(0)
  {
    if |buf| < n then
      SingleEvent(Collect(buf));
      Step([Collect(buf)], [], Count(n - |buf|), false, false)
    else
      assert buf[..n] + buf[n..] == buf;
      TwoEvents(Collect(buf[..n]), Found([]));
      SingleEvent(Collect(buf[..n]));
      SingleEvent(Found([]));
      Step([Collect(buf[..n]), Found([])], buf[n..], Count(0), true, false)
  }

  /** The pass for a non-empty literal terminator `s` (gab.js:81-118). */
  function LiteralPass(buf: string, s: string): (p: Step)
    requires buf != [] && s != []
    ensures StepKeeps(buf, Literal(s), p)
  {
    var index := IndexOf(buf, s);
    if index != -1 then
      FoundLiteral(buf, s, index)
    else
      var k := PrefixAtEnd(buf, s);
      if k != 0 then
        if k != |buf| then
          // substring(0, k) and substring(k) clamp k to the buffer length
          var cut := if k < |buf| then k else |buf|;
          assert buf[..cut] + buf[cut..] == buf;
          NoOccurrenceInSuffix(buf, s, cut);
          SingleEvent(Collect(buf[..cut]));
          Step([Collect(buf[..cut])], buf[cut..], Literal(s), false, true)
        else
          assert buf[..0] == [];
          Step([], buf, Literal(s), false, true)
      else
        SingleEvent(Collect(buf));
        Step([Collect(buf)], [], Literal(s), false, false)
  }

  /** The pass when the literal `s` first occurs at `index` (gab.js:92-101). */
  function FoundLiteral(buf: string, s: string, index: nat): (p: Step)
    requires s != [] && OccursAt(buf, s, index)
    ensures StepKeeps(buf, Literal(s), p)
    ensures p.fired && !p.halt && p.term == Literal(s)
    ensures p.rest == buf[index + |s|..]
    ensures Collected(p.events) == buf[..index]
  {
    assert buf[..index] + s + buf[index + |s|..] == buf;
    var pre := if index > 0 then [Collect(buf[..index])] else [];
    FlattenAppend(pre, [Found(s)]);
    FoundCountAppend(pre, [Found(s)]);
    CollectedAppend(pre, [Found(s)]);
    SingleEvent(Found(s));
    SingleEvent(Collect(buf[..index]));
    Step(pre + [Found(s)], buf[index + |s|..], Literal(s), true, false)
  }

  /** One pass of the loop body on a non-empty buffer, before the consumer
      reacts to a foundTerminator call. */
  function Pass(buf: string, t: Terminator): (p: Step)
    requires buf != []
    ensures StepKeeps(buf, t, p)
  {
    if Falsy(t) then CollectAllPass(buf, t)
    else if t.Count? then CountPass(buf, t.n)
    else LiteralPass(buf, t.s)
  }

  lemma NoOccurrenceInSuffix(s: string, t: string, q: nat)
    requires q <= |s|
    requires forall i :: !OccursAt(s, t, i)
    ensures forall i :: !OccursAt(s[q..], t, i)
  {
    forall i | OccursAt(s[q..], t, i)
      ensures false
    {
      OccursInSuffix(s, t, q, i);
    }
  }

  /** The terminator in force after a pass: `this.terminator` is re-read at
      the top of the next pass, so an assignment made by the consumer inside
      foundTerminator takes effect on the remaining buffer. */
  function After(p: Step, consumer: seq<Event> -> Reaction, log: seq<Event>): (t: Terminator)
    ensures !p.fired ==> t == p.term
    ensures consumer(log + p.events) == Keep ==> t == p.term
    ensures p.fired && consumer(log + p.events).Retarget? ==> t == consumer(log + p.events).next
  {
    if p.fired then
      match consumer(log + p.events)
      case Keep => p.term
      case Retarget(t) => t
    else p.term
  }

  /** The result of running the handleRead loop to its end. */
  datatype Outcome = Outcome(events: seq<Event>, rest: string, term: Terminator)

  /** The handleRead loop, `while (this.inBuffer) { ... }`, from buffer `buf`
      and terminator `t`; `log` is what the consumer has seen before. */
  function Scan(buf: string, t: Terminator, consumer: seq<Event> -> Reaction, log: seq<Event>): (o: Outcome)
    decreases |buf|
    ensures |o.rest| <= |buf|
  {
    if buf == [] then Outcome([], [], t)
    else
      var p := Pass(buf, t);
      var t' := After(p, consumer, log);
      if p.halt then Outcome(p.events, p.rest, t')
      else
        var o := Scan(p.rest, t', consumer, log + p.events);
        Outcome(p.events + o.events, o.rest, o.term)
  }

  // Associativity of `+` is built in; ConcatAssoc and EventsAssoc only
  // hand the solver the regrouping it needs at a particular call site.
  lemma ConcatAssoc(a: string, b: string, c: string)
    ensures (a + b) + c == a + (b + c)
  {
  }

  lemma EventsAssoc(a: seq<Event>, b: seq<Event>, c: seq<Event>)
    ensures (a + b) + c == a + (b + c)
  {
  }

  /** Unfolding the loop by one pass that does not break. */
  lemma ScanUnfold(buf: string, t: Terminator, consumer: seq<Event> -> Reaction, log: seq<Event>)
    requires buf != [] && !Pass(buf, t).halt
    ensures var p := Pass(buf, t);
      var o := Scan(p.rest, After(p, consumer, log), consumer, log + p.events);
      Scan(buf, t, consumer, log) == Outcome(p.events + o.events, o.rest, o.term)
  {
  }

  /** A pass that breaks ends the loop with its own events and remainder. */
  lemma ScanHalts(buf: string, t: Terminator, consumer: seq<Event> -> Reaction, log: seq<Event>)
    requires buf != [] && Pass(buf, t).halt
    ensures var p := Pass(buf, t); Scan(buf, t, consumer, log) == Outcome(p.events, p.rest, p.term)
  {
  }

  /** The loop loses and duplicates no character: the collected segments,
      with each matched terminator put back in its place, followed by the
      buffer left behind, are exactly the buffer it started from. */
  lemma {:induction false} ScanConserves(buf: string, t: Terminator, consumer: seq<Event> -> Reaction, log: seq<Event>)
    decreases |buf|
    ensures var o := Scan(buf, t, consumer, log); Flatten(o.events) + o.rest == buf
  {
    if buf != [] {
      var p := Pass(buf, t);
      var t' := After(p, consumer, log);
      if !p.halt {
        var o := Scan(p.rest, t', consumer, log + p.events);
        ScanConserves(p.rest, t', consumer, log + p.events);
        ScanUnfold(buf, t, consumer, log);
        FlattenAppend(p.events, o.events);
        ConcatAssoc(Flatten(p.events), Flatten(o.events), o.rest);
      }
    }
  }

  /** collectIncomingData is never called with the empty string. */
  lemma {:induction false} ScanNeverCollectsEmpty(buf: string, t: Terminator, consumer: seq<Event> -> Reaction, log: seq<Event>)
    decreases |buf|
    ensures NoEmptyCollect(Scan(buf, t, consumer, log).events)
  {
    if buf != [] {
      var p := Pass(buf, t);
      var t' := After(p, consumer, log);
      if !p.halt {
        var o := Scan(p.rest, t', consumer, log + p.events);
        ScanNeverCollectsEmpty(p.rest, t', consumer, log + p.events);
        ScanUnfold(buf, t, consumer, log);
        NoEmptyCollectAppend(p.events, o.events);
      }
    }
  }

  /** The loop ends with an empty buffer, or with a buffer that holds no
      complete occurrence of the literal terminator then in force. */
  lemma {:induction false} ScanLeavesNoMatch(buf: string, t: Terminator, consumer: seq<Event> -> Reaction, log: seq<Event>)
    decreases |buf|
    ensures var o := Scan(buf, t, consumer, log);
      o.rest != [] ==> o.term.Literal? && o.term.s != [] && forall i :: !OccursAt(o.rest, o.term.s, i)
  {
    if buf != [] {
      var p := Pass(buf, t);
      var t' := After(p, consumer, log);
      if p.halt {
        assert t' == t;
      } else {
        ScanLeavesNoMatch(p.rest, t', consumer, log + p.events);
        ScanUnfold(buf, t, consumer, log);
      }
    }
  }

  // ---------------------------------------------------------------------
  // The branches of one pass, as the loop body takes them.

  /** A falsy terminator (absent, "" or the 0 a completed count leaves)
      collects the whole buffer, clears it, keeps the terminator and never
      calls foundTerminator. */
  lemma FalsyCollectsAll(buf: string, t: Terminator, consumer: seq<Event> -> Reaction, log: seq<Event>)
    requires Falsy(t)
    ensures Scan(buf, t, consumer, log) == Outcome(if buf == [] then [] else [Collect(buf)], [], t)
  {
  }

  /** Count mode, buffer shorter than the count: all of it is delivered,
      the count goes down by the buffer length, the buffer empties and
      foundTerminator is not called. */
  lemma CountShort(buf: string, n: nat, consumer: seq<Event> -> Reaction, log: seq<Event>)
    requires 0 < |buf| < n
    ensures Scan(buf, Count(n), consumer, log) == Outcome([Collect(buf)], [], Count(n - |buf|))
  {
  }

  /** Count mode, buffer at least the count: exactly the first `n`
      characters are delivered, then foundTerminator fires once with the
      terminator already set to 0; the rest stays for the next pass. */
  lemma CountComplete(buf: string, n: nat)
    requires 0 < n <= |buf|
    ensures Pass(buf, Count(n)) == Step([Collect(buf[..n]), Found([])], buf[n..], Count(0), true, false)
  {
  }

  /** Literal terminator first occurring at `i`: the text before it is
      delivered only when `i > 0`, the buffer becomes the text after the
      terminator and foundTerminator fires exactly once. */
  lemma LiteralFirstOccurrence(buf: string, s: string, i: nat)
    requires s != [] && OccursAt(buf, s, i)
    requires forall j :: 0 <= j < i ==> !OccursAt(buf, s, j)
    ensures Pass(buf, Literal(s)) ==
              Step((if i > 0 then [Collect(buf[..i])] else []) + [Found(s)], buf[i + |s|..], Literal(s), true, false)
  {
    var r := IndexOf(buf, s);
    assert r != -1;
    assert r == i;
  }

  /** Both branches of the literal pass. foundTerminator fires exactly
      when the literal occurs in the buffer, and then the text before its
      first occurrence is delivered and the text after it kept. Otherwise
      the pass delivers up to findPrefixAtEnd's offset `k`, clamped to the
      buffer, and keeps the rest; it breaks unless `k` is 0, and when `k` is
      the buffer's length nothing is delivered. The terminator is kept. */
  lemma LiteralPassOutcome(buf: string, s: string)
    requires buf != [] && s != []
    ensures var p := LiteralPass(buf, s);
            && (p.fired <==> exists i :: OccursAt(buf, s, i))
            && p.term == Literal(s)
    ensures (exists i :: OccursAt(buf, s, i)) ==>
              var p, index := LiteralPass(buf, s), IndexOf(buf, s);
              && !p.halt
              && Collected(p.events) == buf[..index]
              && p.rest == buf[index + |s|..]
    ensures (forall i :: !OccursAt(buf, s, i)) ==>
              var p, k := LiteralPass(buf, s), PrefixAtEnd(buf, s);
              var cut := if k == 0 || k > |buf| then |buf| else k;
              && p.halt == (k != 0)
              && Collected(p.events) == (if k == |buf| then [] else buf[..cut])
              && p.rest == (if k == |buf| then buf else buf[cut..])
  {
    if exists i :: OccursAt(buf, s, i) {
      var i :| OccursAt(buf, s, i);
    }
  }

  /** After a foundTerminator call the next pass re-reads the terminator:
      a value the consumer assigned inside the callback governs the rest of
      the buffer. */
  lemma RetargetTakesEffect(buf: string, t: Terminator, u: Terminator, consumer: seq<Event> -> Reaction, log: seq<Event>)
    requires buf != [] && Pass(buf, t).fired
    requires consumer(log + Pass(buf, t).events) == Retarget(u)
    ensures var p := Pass(buf, t);
      Scan(buf, t, consumer, log).events == p.events + Scan(p.rest, u, consumer, log + p.events).events
  {
    ScanUnfold(buf, t, consumer, log);
  }

  // ---------------------------------------------------------------------
  // handleRead as a transition of the framer's state.

  /** The framer state handleRead reads and writes, with the calls made on
      the consumer so far. */
  datatype Framer = Framer(buffer: string, term: Terminator, log: seq<Event>)

  /** handleRead(data): append the chunk, run the loop. */
  function Read(f: Framer, data: string, consumer: seq<Event> -> Reaction): (r: Framer)
    ensures |f.log| <= |r.log| && r.log[..|f.log|] == f.log
    ensures |r.buffer| <= |f.buffer| + |data|
  {
    var o := Scan(f.buffer + data, f.term, consumer, f.log);
    Framer(o.rest, o.term, f.log + o.events)
  }

  /** A sequence of reads, in order. */
  function Feed(f: Framer, chunks: seq<string>, consumer: seq<Event> -> Reaction): (r: Framer)
    decreases |chunks|
    ensures |f.log| <= |r.log| && r.log[..|f.log|] == f.log
  {
    if chunks == [] then f else Feed(Read(f, chunks[0], consumer), chunks[1..], consumer)
  }

  function Concat(chunks: seq<string>): string
  {
    if chunks == [] then [] else chunks[0] + Concat(chunks[1..])
  }

  /** The consumer that never reassigns the terminator. */
  function KeepAll(log: seq<Event>): Reaction
  {
    Keep
  }

  /** One read: the log only grows, what it gains accounts for every
      character removed from the old buffer plus the chunk, and it never
      holds an empty collected segment. */
  lemma ReadKeeps(f: Framer, data: string, consumer: seq<Event> -> Reaction)
    ensures var f' := Read(f, data, consumer);
      && |f.log| <= |f'.log| && f'.log[..|f.log|] == f.log
      && Flatten(f'.log[|f.log|..]) + f'.buffer == f.buffer + data
      && NoEmptyCollect(f'.log[|f.log|..])
  {
    var o := Scan(f.buffer + data, f.term, consumer, f.log);
    ScanConserves(f.buffer + data, f.term, consumer, f.log);
    ScanNeverCollectsEmpty(f.buffer + data, f.term, consumer, f.log);
    assert (f.log + o.events)[|f.log|..] == o.events;
  }

  /** Two consecutive stretches of a growing log, each accounting for its
      own input, together account for both inputs. */
  lemma ChainConserves(l0: seq<Event>, l1: seq<Event>, l2: seq<Event>, b0: string, b1: string, b2: string, d1: string, d2: string)
    requires |l0| <= |l1| && l1[..|l0|] == l0 && Flatten(l1[|l0|..]) + b1 == b0 + d1
    requires |l1| <= |l2| && l2[..|l1|] == l1 && Flatten(l2[|l1|..]) + b2 == b1 + d2
    ensures |l0| <= |l2| && l2[..|l0|] == l0 && Flatten(l2[|l0|..]) + b2 == b0 + (d1 + d2)
  {
    var a, b := l1[|l0|..], l2[|l1|..];
    assert l2 == l0 + a + b;
    assert l2[|l0|..] == a + b;
    FlattenAppend(a, b);
    ConcatAssoc(Flatten(a), Flatten(b), b2);
    ConcatAssoc(Flatten(a), b1, d2);
    ConcatAssoc(b0, d1, d2);
  }

  /** Two consecutive stretches of a growing log without empty collected
      segments make one. */
  lemma ChainNoEmpty(l0: seq<Event>, l1: seq<Event>, l2: seq<Event>)
    requires |l0| <= |l1| && l1[..|l0|] == l0 && NoEmptyCollect(l1[|l0|..])
    requires |l1| <= |l2| && l2[..|l1|] == l1 && NoEmptyCollect(l2[|l1|..])
    ensures NoEmptyCollect(l2[|l0|..])
  {
    var a, b := l1[|l0|..], l2[|l1|..];
    assert l2 == l0 + a + b;
    assert l2[|l0|..] == a + b;
    NoEmptyCollectAppend(a, b);
  }

  /** Over any sequence of reads the log only grows, and no character is
      lost or duplicated: what the log gains accounts for the old buffer
      plus every chunk, less what is still buffered. */
  lemma {:induction false} FeedConserves(f: Framer, chunks: seq<string>, consumer: seq<Event> -> Reaction)
    decreases |chunks|
    ensures var f' := Feed(f, chunks, consumer);
      && |f.log| <= |f'.log| && f'.log[..|f.log|] == f.log
      && Flatten(f'.log[|f.log|..]) + f'.buffer == f.buffer + Concat(chunks)
  {
    if chunks != [] {
      var g := Read(f, chunks[0], consumer);
      var f' := Feed(g, chunks[1..], consumer);
      ReadKeeps(f, chunks[0], consumer);
      FeedConserves(g, chunks[1..], consumer);
      ChainConserves(f.log, g.log, f'.log, f.buffer, g.buffer, f'.buffer, chunks[0], Concat(chunks[1..]));
    }
  }

  /** Over any sequence of reads collectIncomingData never receives "". */
  lemma {:induction false} FeedNeverCollectsEmpty(f: Framer, chunks: seq<string>, consumer: seq<Event> -> Reaction)
    decreases |chunks|
    ensures var f' := Feed(f, chunks, consumer);
      |f.log| <= |f'.log| && NoEmptyCollect(f'.log[|f.log|..])
  {
    if chunks != [] {
      var g := Read(f, chunks[0], consumer);
      var f' := Feed(g, chunks[1..], consumer);
      ReadKeeps(f, chunks[0], consumer);
      FeedConserves(g, chunks[1..], consumer);
      FeedNeverCollectsEmpty(g, chunks[1..], consumer);
      ChainNoEmpty(f.log, g.log, f'.log);
    }
  }
}
