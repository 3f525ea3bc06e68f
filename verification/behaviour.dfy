// Consequences of handleRead as written: how a byte count spans reads, what
// findPrefixAtEnd's count-down does with the default CR LF terminator, and
// a terminator split across two reads that is never matched.

module Behaviour {
  import opened Terminators
  import opened Framing

  /** A read is determined by the outcome of the loop on the buffer plus the
      chunk. */
  lemma ReadVia(f: Framer, data: string, consumer: seq<Event> -> Reaction, o: Outcome)
    requires Scan(f.buffer + data, f.term, consumer, f.log) == o
    ensures Read(f, data, consumer) == Framer(o.rest, o.term, f.log + o.events)
  {
  }

  lemma FeedOne(f: Framer, a: string, consumer: seq<Event> -> Reaction)
    ensures Feed(f, [a], consumer) == Read(f, a, consumer)
  {
    assert [a][1..] == [];
  }

  lemma FeedPair(f: Framer, a: string, b: string, consumer: seq<Event> -> Reaction)
    ensures Feed(f, [a, b], consumer) == Read(Read(f, a, consumer), b, consumer)
  {
    assert [a, b][1..] == [b];
    FeedOne(Read(f, a, consumer), b, consumer);
  }

  /** A string with no CR directly followed by LF holds no CR LF. */
  lemma NoCrLf(s: string)
    requires forall i :: 0 <= i < |s| - 1 ==> !(s[i] == '\r' && s[i + 1] == '\n')
    ensures forall i :: !OccursAt(s, "\r\n", i)
  {
    forall i ensures !OccursAt(s, "\r\n", i) {
      if 0 <= i && i + 2 <= |s| {
        assert s[i..i + 2] == [s[i], s[i + 1]];
      }
    }
  }

  lemma FeedTriple(f: Framer, a: string, b: string, d: string, consumer: seq<Event> -> Reaction)
    ensures Feed(f, [a, b, d], consumer) == Read(Read(Read(f, a, consumer), b, consumer), d, consumer)
  {
    assert [a, b, d][1..] == [b, d];
    FeedPair(Read(f, a, consumer), b, d, consumer);
  }

  /** A read shorter than the count still owed on an empty buffer. */
  lemma ReadCountShort(f: Framer, b: string, n: nat, consumer: seq<Event> -> Reaction)
    requires f.buffer == [] && f.term == Count(n) && 0 < |b| < n
    ensures Read(f, b, consumer) == Framer([], Count(n - |b|), f.log + [Collect(b)])
  {
    assert f.buffer + b == b;
    CountShort(b, n, consumer, f.log);
  }

  /** A read that completes the count owed on an empty buffer. */
  lemma ReadCountCompletes(f: Framer, b: string, m: nat, consumer: seq<Event> -> Reaction)
    requires f.buffer == [] && f.term == Count(m) && 0 < m <= |b|
    ensures var h := Read(f, b, consumer);
      var o := Scan(b[m..], After(Pass(b, Count(m)), consumer, f.log), consumer, f.log + [Collect(b[..m]), Found([])]);
      h == Framer(o.rest, o.term, f.log + [Collect(b[..m]), Found([])] + o.events)
  {
    assert f.buffer + b == b;
    CountComplete(b, m);
    ScanUnfold(b, Count(m), consumer, f.log);
  }

  /** A read that completes the count: the log gains the first `m`
      characters of the chunk and then one foundTerminator call. */
  lemma ReadCountPrefix(f: Framer, b: string, m: nat, consumer: seq<Event> -> Reaction)
    requires f.buffer == [] && f.term == Count(m) && 0 < m <= |b|
    ensures var h := Read(f, b, consumer);
      |f.log| + 2 <= |h.log| && h.log[..|f.log| + 2] == f.log + [Collect(b[..m]), Found([])]
  {
    ReadCountCompletes(f, b, m, consumer);
    var o := Scan(b[m..], After(Pass(b, Count(m)), consumer, f.log), consumer, f.log + [Collect(b[..m]), Found([])]);
    PrefixOf(f.log + [Collect(b[..m]), Found([])], o.events);
  }

  lemma PrefixOf(a: seq<Event>, b: seq<Event>)
    ensures (a + b)[..|a|] == a
  {
  }

  /** A count spanning two reads: the first read is delivered whole and
      lowers the count, the second delivers exactly the characters still
      owed and then fires foundTerminator once, so the text delivered before
      that call is exactly the first `n` characters received. */
  lemma CountSpansReads(f: Framer, b1: string, b2: string, n: nat, consumer: seq<Event> -> Reaction)
    requires f.buffer == [] && f.term == Count(n)
    requires 0 < |b1| < n <= |b1| + |b2|
    ensures var f' := Feed(f, [b1, b2], consumer);
      && |f.log| + 3 <= |f'.log|
      && f'.log[|f.log|..|f.log| + 3] == [Collect(b1), Collect(b2[..n - |b1|]), Found([])]
      && b1 + b2[..n - |b1|] == (b1 + b2)[..n]
  {
    var m := n - |b1|;
    FeedPair(f, b1, b2, consumer);
    ReadCountShort(f, b1, n, consumer);
    var g := Framer([], Count(m), f.log + [Collect(b1)]);
    ReadCountPrefix(g, b2, m, consumer);
    var h := Read(g, b2, consumer);
    LogWindow(f.log, Collect(b1), [Collect(b2[..m]), Found([])], h.log);
  }

  lemma LogWindow(l: seq<Event>, e: Event, w: seq<Event>, h: seq<Event>)
    requires |l| + 1 + |w| <= |h| && h[..|l| + 1 + |w|] == l + [e] + w
    ensures h[|l|..|l| + 1 + |w|] == [e] + w
  {
    assert h[|l|..|l| + 1 + |w|] == h[..|l| + 1 + |w|][|l|..];
  }

  lemma TenFirst()
    ensures Read(Framer([], Count(10), []), "abc", KeepAll) == Framer([], Count(7), [Collect("abc")])
  {
    ReadCountShort(Framer([], Count(10), []), "abc", 10, KeepAll);
  }

  lemma TenSecond()
    ensures Read(Framer([], Count(7), [Collect("abc")]), "defg", KeepAll)
            == Framer([], Count(3), [Collect("abc"), Collect("defg")])
  {
    ReadCountShort(Framer([], Count(7), [Collect("abc")]), "defg", 7, KeepAll);
  }

  /** A count completed inside the buffer leaves the falsy 0 behind: when
      the consumer keeps it, the rest of the buffer is collected as is. */
  lemma CountThenCollectsRest(buf: string, n: nat, log: seq<Event>)
    requires 0 < n < |buf|
    ensures Scan(buf, Count(n), KeepAll, log)
            == Outcome([Collect(buf[..n]), Found([]), Collect(buf[n..])], [], Count(0))
  {
    CountComplete(buf, n);
    var p := Pass(buf, Count(n));
    assert After(p, KeepAll, log) == Count(0);
    FalsyCollectsAll(buf[n..], Count(0), KeepAll, log + p.events);
    ScanUnfold(buf, Count(n), KeepAll, log);
    assert [Collect(buf[..n]), Found([])] + [Collect(buf[n..])]
           == [Collect(buf[..n]), Found([]), Collect(buf[n..])];
  }

  lemma TenThird()
    ensures Read(Framer([], Count(3), [Collect("abc"), Collect("defg")]), "hijkl", KeepAll)
            == Framer([], Count(0), [Collect("abc"), Collect("defg"), Collect("hij"), Found([]), Collect("kl")])
  {
    var f := Framer([], Count(3), [Collect("abc"), Collect("defg")]);
    CountThenCollectsRest("hijkl", 3, f.log);
    assert "hijkl"[..3] == "hij" && "hijkl"[3..] == "kl";
    var events := [Collect("hij"), Found([]), Collect("kl")];
    assert [] + "hijkl" == "hijkl";
    ReadVia(f, "hijkl", KeepAll, Outcome(events, [], Count(0)));
    assert f.log + events == [Collect("abc"), Collect("defg"), Collect("hij"), Found([]), Collect("kl")];
  }

  /** The worked byte-count case: a count of 10 fed in chunks of 3, 4 and
      5 characters. foundTerminator fires once, right after the tenth
      character; the count is then 0, a falsy terminator, so the eleventh
      and twelfth characters are collected as they are. */
  lemma CountOfTen()
    ensures Feed(Framer([], Count(10), []), ["abc", "defg", "hijkl"], KeepAll)
            == Framer([], Count(0), [Collect("abc"), Collect("defg"), Collect("hij"), Found([]), Collect("kl")])
  {
    FeedTriple(Framer([], Count(10), []), "abc", "defg", "hijkl", KeepAll);
    TenFirst();
    TenSecond();
    TenThird();
  }

  /** With the default CR LF terminator findPrefixAtEnd returns 1 unless
      the buffer ends in LF: a buffer (the text kept plus the new chunk) of
      two or more characters holding no CR LF and not ending in LF delivers
      its first character only and keeps the rest (so a trailing CR is
      kept). */
  lemma DefaultTerminatorFlushesFirst(buf: string, consumer: seq<Event> -> Reaction, log: seq<Event>)
    requires |buf| >= 2 && buf[|buf| - 1] != '\n'
    requires forall i :: !OccursAt(buf, "\r\n", i)
    ensures Scan(buf, DefaultTerminator, consumer, log)
            == Outcome([Collect(buf[..1])], buf[1..], DefaultTerminator)
  {
    assert "\r\n"[1..] == "\n";
    assert !EndsWithTail(buf, "\r\n", 1);
    assert PrefixAtEnd(buf, "\r\n") == 1;
  }

  /** With the default terminator, a one-character buffer other than LF is
      kept whole: findPrefixAtEnd returns 1, the buffer's own length, so
      nothing is delivered and the loop breaks. */
  lemma DefaultTerminatorKeepsOne(c: char, consumer: seq<Event> -> Reaction, log: seq<Event>)
    requires c != '\n'
    ensures Scan([c], DefaultTerminator, consumer, log) == Outcome([], [c], DefaultTerminator)
  {
    KeepsOneSearch(c);
    assert LiteralPass([c], "\r\n") == Step([], [c], DefaultTerminator, false, true);
    ScanHalts([c], DefaultTerminator, consumer, log);
  }

  /** CR LF does not fit in one character, and findPrefixAtEnd stops at 1
      when that character is not LF. */
  lemma KeepsOneSearch(c: char)
    requires c != '\n'
    ensures IndexOf([c], "\r\n") == -1
    ensures PrefixAtEnd([c], "\r\n") == 1
  {
    assert "\r\n"[1..] == "\n";
    assert !EndsWithTail([c], "\r\n", 1);
  }

  /** With the default terminator, a buffer (the text kept plus the new
      chunk) holding no CR LF that ends in LF is delivered whole. */
  lemma DefaultTerminatorAfterNewline(buf: string, consumer: seq<Event> -> Reaction, log: seq<Event>)
    requires |buf| >= 1 && buf[|buf| - 1] == '\n'
    requires forall i :: !OccursAt(buf, "\r\n", i)
    ensures Scan(buf, DefaultTerminator, consumer, log) == Outcome([Collect(buf)], [], DefaultTerminator)
  {
    assert "\r\n"[1..] == "\n";
    assert buf[|buf| - 1..] == "\n";
    assert EndsWithTail(buf, "\r\n", 1);
    assert PrefixAtEnd(buf, "\r\n") == 0;
  }

  lemma CrLfFirst(log: seq<Event>)
    ensures Read(Framer([], DefaultTerminator, log), "abc\r", KeepAll)
            == Framer("bc\r", DefaultTerminator, log + [Collect("a")])
  {
    assert [] + "abc\r" == "abc\r";
    NoCrLf("abc\r");
    DefaultTerminatorFlushesFirst("abc\r", KeepAll, log);
    assert "abc\r"[..1] == "a" && "abc\r"[1..] == "bc\r";
    ReadVia(Framer([], DefaultTerminator, log), "abc\r", KeepAll,
            Outcome([Collect("a")], "bc\r", DefaultTerminator));
  }

  /** With CR LF, a non-empty line holding no CR, followed by CR LF, is
      delivered whole and fires foundTerminator once; the loop then goes on
      with what follows. */
  lemma ScanLine(a: string, rest: string, log: seq<Event>)
    requires a != [] && forall i :: 0 <= i < |a| ==> a[i] != '\r'
    ensures var o := Scan(rest, DefaultTerminator, KeepAll, log + [Collect(a), Found("\r\n")]);
      Scan(a + "\r\n" + rest, DefaultTerminator, KeepAll, log)
      == Outcome([Collect(a), Found("\r\n")] + o.events, o.rest, o.term)
  {
    var crlf := "\r\n";
    var buf := a + crlf + rest;
    assert buf[|a|..|a| + 2] == crlf;
    forall j | 0 <= j < |a| ensures !OccursAt(buf, crlf, j) {
      if j + 2 <= |buf| {
        assert buf[j..j + 2][0] == a[j];
      }
    }
    LiteralFirstOccurrence(buf, crlf, |a|);
    assert buf[..|a|] == a && buf[|a| + 2..] == rest;
    var p := Pass(buf, DefaultTerminator);
    assert p == Step([Collect(a)] + [Found(crlf)], rest, DefaultTerminator, true, false);
    assert After(p, KeepAll, log) == DefaultTerminator;
    ScanUnfold(buf, DefaultTerminator, KeepAll, log);
    assert [Collect(a)] + [Found(crlf)] == [Collect(a), Found(crlf)];
  }

  lemma CrLfTail(log: seq<Event>)
    ensures Scan("def\r\n", DefaultTerminator, KeepAll, log)
            == Outcome([Collect("def"), Found("\r\n")], [], DefaultTerminator)
  {
    assert "def" + "\r\n" + [] == "def\r\n";
    ScanLine("def", [], log);
    assert [Collect("def"), Found("\r\n")] + [] == [Collect("def"), Found("\r\n")];
  }

  lemma CrLfMiddle(log: seq<Event>)
    ensures Scan("bc\r\ndef\r\n", DefaultTerminator, KeepAll, log)
            == Outcome([Collect("bc"), Found("\r\n"), Collect("def"), Found("\r\n")], [], DefaultTerminator)
  {
    assert "bc" + "\r\n" + "def\r\n" == "bc\r\ndef\r\n";
    ScanLine("bc", "def\r\n", log);
    CrLfTail(log + [Collect("bc"), Found("\r\n")]);
    assert [Collect("bc"), Found("\r\n")] + [Collect("def"), Found("\r\n")]
           == [Collect("bc"), Found("\r\n"), Collect("def"), Found("\r\n")];
  }

  lemma CrLfSecond(log: seq<Event>)
    ensures Read(Framer("bc\r", DefaultTerminator, log), "\ndef\r\n", KeepAll)
            == Framer([], DefaultTerminator, log + [Collect("bc"), Found("\r\n"), Collect("def"), Found("\r\n")])
  {
    assert "bc\r" + "\ndef\r\n" == "bc\r\ndef\r\n";
    CrLfMiddle(log);
  }

  /** The log of the CR LF example holds the text "abcdef" and two
      foundTerminator calls. */
  lemma CrLfExampleLog()
    ensures var e := [Collect("a"), Collect("bc"), Found("\r\n"), Collect("def"), Found("\r\n")];
      Collected(e) == "abcdef" && FoundCount(e) == 2
  {
    var t4 := [Found("\r\n")];
    var t3 := [Collect("def"), Found("\r\n")];
    var t2 := [Found("\r\n"), Collect("def"), Found("\r\n")];
    var t1 := [Collect("bc"), Found("\r\n"), Collect("def"), Found("\r\n")];
    var e := [Collect("a"), Collect("bc"), Found("\r\n"), Collect("def"), Found("\r\n")];
    assert e[1..] == t1 && t1[1..] == t2 && t2[1..] == t3 && t3[1..] == t4 && t4[1..] == [];
    assert Collected(t4) == [] && FoundCount(t4) == 1;
    assert Collected(t3) == "def" && FoundCount(t3) == 1;
    assert Collected(t2) == "def" && FoundCount(t2) == 2;
    assert Collected(t1) == "bc" + "def" && FoundCount(t1) == 2;
    assert Collected(e) == "a" + ("bc" + "def");
  }

  /** "abc\r" then "\ndef\r\n" with the default terminator: the first read
      delivers "a" and keeps "bc\r" (CrLfFirst); the second completes the
      CR LF. The consumer sees the text "abc", a match, "def" and a match. */
  lemma DefaultTerminatorAcrossReads(log: seq<Event>)
    ensures var f := Feed(Framer([], DefaultTerminator, log), ["abc\r", "\ndef\r\n"], KeepAll);
      var e := [Collect("a"), Collect("bc"), Found("\r\n"), Collect("def"), Found("\r\n")];
      && f == Framer([], DefaultTerminator, log + e)
      && Collected(e) == "abcdef" && FoundCount(e) == 2
  {
    var a := [Collect("a")];
    var rest := [Collect("bc"), Found("\r\n"), Collect("def"), Found("\r\n")];
    FeedPair(Framer([], DefaultTerminator, log), "abc\r", "\ndef\r\n", KeepAll);
    CrLfFirst(log);
    CrLfSecond(log + a);
    EventsAssoc(log, a, rest);
    assert a + rest == [Collect("a"), Collect("bc"), Found("\r\n"), Collect("def"), Found("\r\n")];
    CrLfExampleLog();
  }

  lemma SplitFirstSearch()
    ensures IndexOf("xab", "abc") == -1
    ensures PrefixAtEnd("xab", "abc") == 2
  {
    forall i ensures !OccursAt("xab", "abc", i) {
      if i == 0 {
        assert "xab"[0..3] != "abc" by { assert "xab"[0] == 'x'; }
      }
    }
    assert "abc"[2..] == "c";
    assert !EndsWithTail("xab", "abc", 2);
  }

  lemma SplitFirst()
    ensures Read(Framer([], Literal("abc"), []), "xab", KeepAll) == Framer("b", Literal("abc"), [Collect("xa")])
  {
    SplitFirstSearch();
    assert "xab"[..2] == "xa" && "xab"[2..] == "b";
    var p := Pass("xab", Literal("abc"));
    assert p == Step([Collect("xa")], "b", Literal("abc"), false, true);
    ScanHalts("xab", Literal("abc"), KeepAll, []);
    assert [] + "xab" == "xab";
    ReadVia(Framer([], Literal("abc"), []), "xab", KeepAll, Outcome([Collect("xa")], "b", Literal("abc")));
  }

  /** "abc" does not fit in "bc", and findPrefixAtEnd counts down to 0,
      since "bc" ends with both "c" and "bc". */
  lemma SplitSecondSearch()
    ensures IndexOf("bc", "abc") == -1
    ensures PrefixAtEnd("bc", "abc") == 0
  {
    assert "abc"[1..] == "bc" && "abc"[2..] == "c";
    assert EndsWithTail("bc", "abc", 2) && EndsWithTail("bc", "abc", 1);
  }

  lemma SplitSecond()
    ensures Read(Framer("b", Literal("abc"), [Collect("xa")]), "c", KeepAll)
            == Framer([], Literal("abc"), [Collect("xa"), Collect("bc")])
  {
    SplitSecondSearch();
    var p := Pass("bc", Literal("abc"));
    assert p == Step([Collect("bc")], [], Literal("abc"), false, false);
    ScanUnfold("bc", Literal("abc"), KeepAll, [Collect("xa")]);
    assert "b" + "c" == "bc";
    ReadVia(Framer("b", Literal("abc"), [Collect("xa")]), "c", KeepAll, Outcome([Collect("bc")], [], Literal("abc")));
  }

  /** A terminator split across two reads is not reassembled: with "abc",
      the read "xab" delivers "xa" and keeps only "b", so after the read "c"
      the text "xabc" has been delivered in full and foundTerminator was
      never called, although "abc" occurs in it. */
  lemma SplitTerminatorLost()
    ensures OccursAt("xab" + "c", "abc", 1)
    ensures var f := Feed(Framer([], Literal("abc"), []), ["xab", "c"], KeepAll);
      f == Framer([], Literal("abc"), [Collect("xa"), Collect("bc")]) && FoundCount(f.log) == 0
  {
    assert ("xab" + "c")[1..4] == "abc";
    FeedPair(Framer([], Literal("abc"), []), "xab", "c", KeepAll);
    SplitFirst();
    SplitSecond();
    TwoEvents(Collect("xa"), Collect("bc"));
    SingleEvent(Collect("xa"));
    SingleEvent(Collect("bc"));
  }
}
