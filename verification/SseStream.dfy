// The incremental server-sent-events parser: main/openrouter_sse.c.
//
// A byte at a time, into a line buffer of fixed size; a line that does not fit is
// dropped whole.  The whole-stream functions at the top know nothing of buffers or
// chunks; the parser is proved to agree with them however the stream is cut.

module SseStream {

  const LINE_BUF_BYTES: nat := 64 * 1024

  // ------------------------------------------------------------ the whole stream

  /** The lines that have been ended by LF; `open` is what stood before s on its line. */
  function Lines(s: string, open: string): seq<string>
    decreases |s|
  {
    if s == [] then []
    else if s[0] == '\n' then [open] + Lines(s[1..], [])
    else Lines(s[1..], open + [s[0]])
  }

  function TrimCr(line: string): string {
    if line != [] && line[|line| - 1] == '\r' then line[..|line| - 1] else line
  }

  predicate IsDataLine(line: string) {
    "data:" <= line
  }

  /** What follows `data:`, less one space. */
  function Payload(line: string): string
    requires IsDataLine(line)
  {
    if |line| > 5 && line[5] == ' ' then line[6..] else line[5..]
  }

  /** The payloads a run of lines carries; a line too long for the buffer carries none. */
  function Payloads(lines: seq<string>): seq<string> {
    if lines == [] then []
    else
      (if |lines[0]| < LINE_BUF_BYTES && IsDataLine(TrimCr(lines[0])) then [Payload(TrimCr(lines[0]))] else [])
      + Payloads(lines[1..])
  }

  function WithoutDone(payloads: seq<string>): seq<string> {
    if payloads == [] then []
    else (if payloads[0] == "[DONE]" then [] else [payloads[0]]) + WithoutDone(payloads[1..])
  }

  function StreamPayloads(s: string): seq<string> {
    Payloads(Lines(s, []))
  }

  // ------------------------------------------------------------------ the machine

  datatype Parser = Parser(line: string, dropping: bool, done: bool, events: seq<string>) {
    function EmitLine(): Parser {
      if line == [] then this
      else
        var n := if line[|line| - 1] == '\r' then |line| - 1 else |line|;
        if n == 0 || line[0] == ':' then this
        else if n < 5 || line[..5] != "data:" then this
        else
          var p := if n > 5 && line[5] == ' ' then line[6..n] else line[5..n];
          if p == "[DONE]" then this.(done := true) else this.(events := events + [p])
    }

    function Byte(c: char): Parser {
      if c == '\n' then (if dropping then this else EmitLine()).(line := [], dropping := false)
      else if dropping then this
      else if |line| + 1 < LINE_BUF_BYTES then this.(line := line + [c])
      else this.(line := [], dropping := true)
    }

    function Feed(s: string): Parser
      decreases |s|
    {
      if s == [] then this else Byte(s[0]).Feed(s[1..])
    }
  }

  const START := Parser([], false, false, [])

  /** A parser object: the callback's calls are recorded in `events`. */
  class SseParser {
    const line: array<char>
    var lineLen: nat
    var dropping: bool
    var done: bool
    var events: seq<string>

    ghost predicate Valid()
      reads this
    {
      line.Length == LINE_BUF_BYTES && lineLen < LINE_BUF_BYTES
    }

    ghost function Value(): Parser
      requires Valid()
      reads this, line
    {
      Parser(line[..lineLen], dropping, done, events)
    }

    constructor ()
      ensures Valid() && fresh(line) && Value() == START
    {
      line := new char[LINE_BUF_BYTES];
      lineLen, dropping, done, events := 0, false, false, [];
    }

    method EmitLine()
      requires Valid()
      modifies this`done, this`events
      ensures Valid() && Value() == old(Value()).EmitLine()
    {
      if lineLen == 0 { return; }
      var n := lineLen;
      if line[n - 1] == '\r' { n := n - 1; }
      if n == 0 { return; }
      if line[0] == ':' { return; }
      ghost var all := line[..];
      assert all[..lineLen] == line[..lineLen];
      if n >= 5 { SliceOfTake(all, lineLen, 0, 5); }
      if n < 5 || line[..5] != "data:" { return; }
      var p, pn := 5, n - 5;
      if pn > 0 && line[p] == ' ' { p, pn := p + 1, pn - 1; }
      SliceOfTake(all, lineLen, p, n);
      if pn == 6 && line[p..p + pn] == "[DONE]" {
        done := true;
        return;
      }
      events := events + [line[p..p + pn]];
    }

    method Feed(buf: array?<char>, len: nat) returns (finished: bool)
      requires Valid() && buf != line
      requires buf != null ==> len <= buf.Length
      modifies this, line
      ensures Valid() && finished == done
      ensures Value() == if buf == null then old(Value()) else old(Value()).Feed(old(buf[..len]))
    {
      if buf == null { return done; }
      ghost var start, text := Value(), buf[..len];
      for i := 0 to len
        invariant Valid() && buf[..len] == text
        invariant Value() == start.Feed(text[..i])
      {
        FeedOneMore(start, text, i);
        var c := buf[i];
        if c == '\n' {
          if !dropping { EmitLine(); }
          lineLen := 0;
          dropping := false;
        } else if dropping {
          continue;
        } else if lineLen + 1 < LINE_BUF_BYTES {
          line[lineLen] := c;
          lineLen := lineLen + 1;
        } else {
          dropping := true;
          lineLen := 0;
        }
      }
      assert text[..len] == text;
      return done;
    }
  }

  lemma SliceOfTake(s: string, m: nat, a: nat, b: nat)
    requires a <= b <= m <= |s|
    ensures s[..m][a..b] == s[a..b] && (a == 0 ==> s[..m][..b] == s[..b])
  {
  }

  // -------------------------------------------------------- however it is chunked

  lemma {:induction false} FeedAppends(p: Parser, a: string, b: string)
    ensures p.Feed(a + b) == p.Feed(a).Feed(b)
    decreases |a|
  {
    if a == [] {
      assert a + b == b;
    } else {
      assert (a + b)[1..] == a[1..] + b;
      FeedAppends(p.Byte(a[0]), a[1..], b);
    }
  }

  lemma FeedOneMore(p: Parser, s: string, i: nat)
    requires i < |s|
    ensures p.Feed(s[..i + 1]) == p.Feed(s[..i]).Byte(s[i])
  {
    assert s[..i + 1] == s[..i] + [s[i]];
    FeedAppends(p, s[..i], [s[i]]);
  }

  function Flatten(chunks: seq<string>): string {
    if chunks == [] then [] else chunks[0] + Flatten(chunks[1..])
  }

  function FeedAll(p: Parser, chunks: seq<string>): Parser
    decreases |chunks|
  {
    if chunks == [] then p else FeedAll(p.Feed(chunks[0]), chunks[1..])
  }

  lemma {:induction false} ChunksDoNotMatter(p: Parser, chunks: seq<string>)
    ensures FeedAll(p, chunks) == p.Feed(Flatten(chunks))
    decreases |chunks|
  {
    if chunks != [] {
      ChunksDoNotMatter(p.Feed(chunks[0]), chunks[1..]);
      FeedAppends(p, chunks[0], Flatten(chunks[1..]));
    }
  }

  /** The parser's buffer against the line so far, of whatever length. */
  predicate Holds(p: Parser, open: string) {
    if |open| < LINE_BUF_BYTES then !p.dropping && p.line == open else p.dropping && p.line == []
  }

  lemma PayloadsOfOne(line: string)
    ensures Payloads([line]) ==
              if |line| < LINE_BUF_BYTES && IsDataLine(TrimCr(line)) then [Payload(TrimCr(line))] else []
  {
    assert [line][1..] == [];
  }

  /** What a line's trimmed text means to the parser. */
  lemma EmitTrimmed(p: Parser)
    ensures !IsDataLine(TrimCr(p.line)) ==> p.EmitLine() == p
    ensures IsDataLine(TrimCr(p.line)) ==>
              var payload := Payload(TrimCr(p.line));
              p.EmitLine() == if payload == "[DONE]" then p.(done := true) else p.(events := p.events + [payload])
  {
    var t := TrimCr(p.line);
    if |t| >= 5 {
      assert p.line[..5] == t[..5];
      assert t[5..] == p.line[5..|t|];
      if |t| > 5 { assert t[6..] == p.line[6..|t|]; }
    }
  }

  /** From p to q the parser has passed on these payloads. */
  predicate PassedOn(p: Parser, q: Parser, payloads: seq<string>) {
    q.events == p.events + WithoutDone(payloads) && q.done == (p.done || "[DONE]" in payloads)
  }

  lemma {:induction false} WithoutDoneSplits(a: seq<string>, b: seq<string>)
    ensures WithoutDone(a + b) == WithoutDone(a) + WithoutDone(b)
  {
    if a == [] {
      assert a + b == b;
    } else {
      assert (a + b)[1..] == a[1..] + b;
      WithoutDoneSplits(a[1..], b);
    }
  }

  lemma PassedOnInTurn(p: Parser, q: Parser, r: Parser, a: seq<string>, b: seq<string>)
    requires PassedOn(p, q, a) && PassedOn(q, r, b)
    ensures PassedOn(p, r, a + b)
  {
    WithoutDoneSplits(a, b);
    hide WithoutDone;
    assert p.events + WithoutDone(a) + WithoutDone(b) == p.events + (WithoutDone(a) + WithoutDone(b));
  }

  lemma EmitIsPayload(p: Parser)
    requires |p.line| < LINE_BUF_BYTES
    ensures PassedOn(p, p.EmitLine(), Payloads([p.line]))
  {
    EmitTrimmed(p);
    PayloadsOfOne(p.line);
    assert p.events + WithoutDone([]) == p.events;
    hide Parser.EmitLine, IsDataLine, TrimCr, Payload, Payloads;
  }

  lemma ByteHolds(p: Parser, open: string, c: char)
    requires Holds(p, open)
    ensures c != '\n' ==> Holds(p.Byte(c), open + [c]) && PassedOn(p, p.Byte(c), [])
    ensures c == '\n' ==> Holds(p.Byte(c), []) && PassedOn(p, p.Byte(c), Payloads([open]))
  {
    PayloadsOfOne(open);
    assert p.events + WithoutDone([]) == p.events;
    if c == '\n' && |open| < LINE_BUF_BYTES { EmitIsPayload(p); }
  }

  lemma PayloadsOfCons(line: string, rest: seq<string>)
    ensures Payloads([line] + rest) == Payloads([line]) + Payloads(rest)
  {
    assert ([line] + rest)[1..] == rest;
    assert [line][1..] == [];
  }

  lemma PayloadsOfRest(open: string, s: string)
    ensures s == [] ==> Payloads(Lines(s, open)) == []
    ensures s != [] && s[0] == '\n' ==> Payloads(Lines(s, open)) == Payloads([open]) + Payloads(Lines(s[1..], []))
    ensures s != [] && s[0] != '\n' ==> Payloads(Lines(s, open)) == Payloads(Lines(s[1..], open + [s[0]]))
  {
    if s != [] && s[0] == '\n' { PayloadsOfCons(open, Lines(s[1..], [])); }
  }

  lemma FeedUnrolls(p: Parser, s: string)
    ensures p.Feed(s) == if s == [] then p else p.Byte(s[0]).Feed(s[1..])
  {
  }

  /** Feeding passes on the payloads of the lines it ends. */
  lemma {:induction false} FeedRefines(p: Parser, open: string, s: string)
    requires Holds(p, open)
    ensures PassedOn(p, p.Feed(s), Payloads(Lines(s, open)))
    decreases |s|
  {
    PayloadsOfRest(open, s);
    FeedUnrolls(p, s);
    assert PassedOn(p, p, []);
    hide *;
    if s != [] {
      ByteHolds(p, open, s[0]);
      if s[0] == '\n' {
        FeedRefines(p.Byte(s[0]), [], s[1..]);
        PassedOnInTurn(p, p.Byte(s[0]), p.Feed(s), Payloads([open]), Payloads(Lines(s[1..], [])));
      } else {
        FeedRefines(p.Byte(s[0]), open + [s[0]], s[1..]);
        PassedOnInTurn(p, p.Byte(s[0]), p.Feed(s), [], Payloads(Lines(s, open)));
        assert [] + Payloads(Lines(s, open)) == Payloads(Lines(s, open));
      }
    }
  }

  /** Whatever the stream and wherever it is cut, the callbacks made are the
      payloads of its finished lines in order, the end marker apart, and the
      parser is done exactly when one of them was the end marker. */
  lemma ChunkedFeedIsWholeStream(chunks: seq<string>)
    ensures var p := FeedAll(START, chunks);
            var payloads := StreamPayloads(Flatten(chunks));
            p.events == WithoutDone(payloads) && p.done == ("[DONE]" in payloads)
  {
    ChunksDoNotMatter(START, chunks);
    FeedRefines(START, [], Flatten(chunks));
  }

  // ------------------------------------- what a line too long leaves undisturbed

  lemma {:induction false} LinesOfOne(line: string, open: string, s: string)
    requires '\n' !in line
    ensures Lines(line + "\n" + s, open) == [open + line] + Lines(s, [])
    decreases |line|
  {
    if line == [] {
      assert line + "\n" + s == "\n" + s;
      assert open + line == open;
    } else {
      assert line + "\n" + s == [line[0]] + (line[1..] + "\n" + s);
      assert open + [line[0]] + line[1..] == open + line;
      LinesOfOne(line[1..], open + [line[0]], s);
    }
  }

  /** An overlong line vanishes, and the lines after it are read as if it had not been there. */
  lemma OverlongLineVanishes(line: string, s: string)
    requires '\n' !in line && |line| >= 65536
    ensures StreamPayloads(line + "\n" + s) == StreamPayloads(s)
  {
    LinesOfOne(line, [], s);
  }

  // ------------------------------------------------------------------- round trip

  function Print(payloads: seq<string>): string {
    if payloads == [] then [] else "data: " + payloads[0] + "\n\n" + Print(payloads[1..])
  }

  /** A payload the framing can carry. */
  predicate Printable(p: string) {
    '\n' !in p && (p == [] || p[|p| - 1] != '\r') && |"data: " + p| <= 65535
  }

  lemma PrintedLine(p: string, s: string)
    requires '\n' !in p
    ensures Lines("data: " + p + "\n\n" + s, []) == ["data: " + p, []] + Lines(s, [])
  {
    var line := "data: " + p;
    assert "data: " + p + "\n\n" + s == line + "\n" + ("\n" + s);
    LinesOfOne(line, [], "\n" + s);
    assert [] + line == line;
    LinesOfOne([], [], s);
    assert [] + "\n" + s == "\n" + s;
  }

  lemma PayloadOfPrinted(p: string)
    requires Printable(p)
    ensures IsDataLine(TrimCr("data: " + p)) && Payload(TrimCr("data: " + p)) == p
  {
    assert TrimCr("data: " + p) == "data: " + p;
  }

  lemma PayloadsOfPrinted(p: string, rest: seq<string>)
    ensures Payloads(["data: " + p, []] + rest) == Payloads(["data: " + p]) + Payloads(rest)
  {
    assert ["data: " + p, []] + rest == ["data: " + p] + ([[]] + rest);
    PayloadsOfCons("data: " + p, [[]] + rest);
    PayloadsOfCons([], rest);
  }

  lemma {:induction false} PrintThenParse(payloads: seq<string>)
    requires forall p :: p in payloads ==> Printable(p)
    ensures StreamPayloads(Print(payloads)) == payloads
  {
    if payloads != [] {
      var p := payloads[0];
      assert p in payloads;
      PrintThenParse(payloads[1..]);
      PrintedLine(p, Print(payloads[1..]));
      PayloadOfPrinted(p);
      PayloadsOfPrinted(p, Lines(Print(payloads[1..]), []));
      assert Payloads(["data: " + p]) == [p];
    }
  }

  lemma {:induction false} PayloadsHaveNoLf(s: string, open: string)
    requires '\n' !in open
    ensures forall p :: p in Payloads(Lines(s, open)) ==> '\n' !in p && |p| + 5 < LINE_BUF_BYTES
    decreases |s|
  {
    if s != [] {
      if s[0] == '\n' {
        PayloadsHaveNoLf(s[1..], []);
      } else {
        PayloadsHaveNoLf(s[1..], open + [s[0]]);
      }
    }
  }

  lemma UnprintableIsLost(p: string)
    requires !Printable(p)
    ensures StreamPayloads(Print([p])) != [p]
  {
    var line := "data: " + p;
    assert Print([p]) == "data: " + p + "\n\n" + [];
    if '\n' in p {
      PayloadsHaveNoLf(Print([p]), []);
      assert p in [p];
    } else {
      PrintedLine(p, []);
      PayloadsOfPrinted(p, []);
      assert Payloads([line][1..]) == [];
      if |line| < LINE_BUF_BYTES {
        assert TrimCr(line) == line[..|line| - 1];
        assert |Payload(TrimCr(line))| < |p|;
      }
    }
  }

  /** Exactly the printable payloads survive the framing. */
  lemma SurvivesIffPrintable(p: string)
    ensures StreamPayloads(Print([p])) == [p] <==> Printable(p)
  {
    if Printable(p) { PrintThenParse([p]); } else { UnprintableIsLost(p); }
  }
}
