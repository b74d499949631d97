// The event stream interpretation of the WHATWG HTML Standard, sections 9.2.5 and
// 9.2.6, as far as message data goes, and when main/openrouter_sse.c agrees with it.

module EventSource {
  import opened SseStream

  /** Lines end at CR LF, LF or CR; what follows the last end is discarded. */
  function StandardLines(s: string, open: string): seq<string>
    decreases |s|
  {
    if s == [] then []
    else if s[0] == '\n' then [open] + StandardLines(s[1..], [])
    else if s[0] == '\r' then
      [open] + if |s| > 1 && s[1] == '\n' then StandardLines(s[2..], []) else StandardLines(s[1..], [])
    else StandardLines(s[1..], open + [s[0]])
  }

  function Colon(line: string): (i: nat)
    ensures i <= |line|
    ensures (forall k :: 0 <= k < i ==> line[k] != ':') && (i < |line| ==> line[i] == ':')
  {
    if line == [] || line[0] == ':' then 0
    else 1 + Colon(line[1..])
  }

  function FieldName(line: string): string {
    line[..Colon(line)]
  }

  function FieldValue(line: string): string {
    if Colon(line) == |line| then []
    else
      var v := line[Colon(line) + 1..];
      if v != [] && v[0] == ' ' then v[1..] else v
  }

  predicate IsDataField(line: string) {
    line != [] && line[0] != ':' && FieldName(line) == "data"
  }

  /** The data of the messages dispatched, given the data buffer. */
  function Messages(lines: seq<string>, data: string): seq<string>
    decreases |lines|
  {
    if lines == [] then []
    else if lines[0] == [] then
      (if data == [] then [] else [data[..|data| - 1]]) + Messages(lines[1..], [])
    else if IsDataField(lines[0]) then Messages(lines[1..], data + FieldValue(lines[0]) + "\n")
    else Messages(lines[1..], data)
  }

  const BYTE_ORDER_MARK: string := "\U{EF}\U{BB}\U{BF}"

  function StreamMessages(s: string): seq<string> {
    Messages(StandardLines(if BYTE_ORDER_MARK <= s then s[3..] else s, []), [])
  }

  // --------------------------------------------------------------- where they meet

  /** CR occurs only as part of CR LF. */
  predicate CrOnlyInCrLf(s: string) {
    forall i :: 0 <= i < |s| && s[i] == '\r' ==> i + 1 < |s| && s[i + 1] == '\n'
  }

  /** At most one data line before each blank line, none after the last. */
  predicate OneDataLinePerEvent(lines: seq<string>, pending: bool)
    decreases |lines|
  {
    if lines == [] then !pending
    else if lines[0] == [] then OneDataLinePerEvent(lines[1..], false)
    else if IsDataField(lines[0]) then !pending && OneDataLinePerEvent(lines[1..], true)
    else OneDataLinePerEvent(lines[1..], pending)
  }

  /** No line is the bare field name, and every line fits the buffer. */
  predicate Fits(lines: seq<string>) {
    forall line :: line in lines ==> TrimCr(line) != "data" && |line| < LINE_BUF_BYTES
  }

  function Trimmed(lines: seq<string>): seq<string> {
    if lines == [] then [] else [TrimCr(lines[0])] + Trimmed(lines[1..])
  }

  lemma {:induction false} SameLines(s: string, open: string)
    requires CrOnlyInCrLf(s) && '\r' !in open
    ensures StandardLines(s, open) == Trimmed(Lines(s, open))
    decreases |s|
  {
    if s != [] {
      assert CrOnlyInCrLf(s[1..]) by {
        forall i | 0 <= i < |s[1..]| && s[1..][i] == '\r' ensures i + 1 < |s[1..]| && s[1..][i + 1] == '\n' {
          assert s[i + 1] == '\r';
        }
      }
      if s[0] == '\n' {
        SameLines(s[1..], []);
      } else if s[0] == '\r' {
        assert s[1] == '\n' && s[1..][1..] == s[2..];
        assert CrOnlyInCrLf(s[2..]) by {
          forall i | 0 <= i < |s[2..]| && s[2..][i] == '\r' ensures i + 1 < |s[2..]| && s[2..][i + 1] == '\n' {
            assert s[i + 2] == '\r';
          }
        }
        SameLines(s[2..], []);
        assert TrimCr(open + ['\r']) == open;
      } else {
        SameLines(s[1..], open + [s[0]]);
      }
    }
  }

  lemma DataLineIsDataField(line: string)
    requires line != "data"
    ensures IsDataLine(line) <==> IsDataField(line)
    ensures IsDataLine(line) ==> Payload(line) == FieldValue(line)
  {
    if IsDataLine(line) {
      assert line[0] == 'd' && line[1] == 'a' && line[2] == 't' && line[3] == 'a' && line[4] == ':';
      assert line[4 + 1..] == line[5..];
    }
  }

  lemma {:induction false} MessagesArePayloads(lines: seq<string>, pending: bool, value: string)
    requires Fits(lines) && OneDataLinePerEvent(Trimmed(lines), pending)
    ensures Messages(Trimmed(lines), if pending then value + "\n" else []) ==
              (if pending then [value] else []) + Payloads(lines)
    decreases |lines|
  {
    if lines != [] {
      assert lines[0] in lines;
      assert Fits(lines[1..]);
      var line := TrimCr(lines[0]);
      assert Trimmed(lines)[1..] == Trimmed(lines[1..]);
      DataLineIsDataField(line);
      var data := if pending then value + "\n" else [];
      if line == [] {
        MessagesArePayloads(lines[1..], false, []);
        assert data != [] ==> data[..|data| - 1] == value;
      } else if IsDataField(line) {
        MessagesArePayloads(lines[1..], true, FieldValue(line));
        assert [] + FieldValue(line) + "\n" == FieldValue(line) + "\n";
      } else {
        MessagesArePayloads(lines[1..], pending, value);
      }
    }
  }

  /** On a stream of single-line messages the parser sees what the standard says. */
  lemma AgreesWithStandard(s: string)
    requires CrOnlyInCrLf(s) && !(BYTE_ORDER_MARK <= s)
    requires Fits(Lines(s, [])) && OneDataLinePerEvent(StandardLines(s, []), false)
    ensures StreamPayloads(s) == StreamMessages(s)
    ensures START.Feed(s).events == WithoutDone(StreamMessages(s))
    ensures START.Feed(s).done == ("[DONE]" in StreamMessages(s))
  {
    SameLines(s, []);
    MessagesArePayloads(Lines(s, []), false, []);
    FeedRefines(START, [], s);
  }
}
