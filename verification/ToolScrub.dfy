// Removing tool-call markers from streamed text: md_strip_tool_markers and its
// helpers in main/md_strip.c, on NUL-terminated buffers that may be one and the same.

module ToolScrub {
  import opened CString

  // ---------------------------------------------------------------- the specification

  const TAGS: seq<string> := ["tool", "args"]

  /** An opening tag at position i. */
  predicate Opens(t: string, i: nat, tag: string) {
    && i + |tag| + 2 <= |t| && t[i] == '<' && LowerAll(t[i + 1..i + 1 + |tag|]) == tag
    && (t[i + 1 + |tag|] == '>' || t[i + 1 + |tag|] == ' ' || t[i + 1 + |tag|] == '\t')
  }

  predicate Closes(t: string, i: nat, tag: string) {
    && i + |tag| + 3 <= |t| && t[i] == '<' && t[i + 1] == '/'
    && LowerAll(t[i + 2..i + 2 + |tag|]) == tag && t[i + 2 + |tag|] == '>'
  }

  /** Just past the first `>` from i on. */
  function PastGt(t: string, i: nat): (r: nat)
    requires i <= |t|
    ensures i <= r <= |t| && (i < |t| ==> i < r)
    decreases |t| - i
  {
    if i == |t| then i else if t[i] == '>' then i + 1 else PastGt(t, i + 1)
  }

  /** Just past the first closing tag from i on. */
  function PastClose(t: string, i: nat, tag: string): (r: nat)
    requires i <= |t|
    ensures i <= r <= |t|
    decreases |t| - i
  {
    if i == |t| then i else if Closes(t, i, tag) then i + |tag| + 3 else PastClose(t, i + 1, tag)
  }

  /** Where the region that opens at i ends; at the end of the text if it never closes. */
  function PastRegion(t: string, i: nat, tag: string): (r: nat)
    requires i < |t|
    ensures i < r <= |t|
  {
    PastClose(t, PastGt(t, i), tag)
  }

  /** One round at position i: the character to write and where to read on. */
  function Round(t: string, i: nat): (r: (char, nat))
    requires i < |t|
    ensures i < r.1 <= |t|
  {
    if Opens(t, i, "tool") then (' ', PastRegion(t, i, "tool"))
    else if Opens(t, i, "args") then (' ', PastRegion(t, i, "args"))
    else (t[i], i + 1)
  }

  /** At most `room` characters from i on: text as it is, a space for each region. */
  function Strip(t: string, i: nat, room: nat): (r: string)
    requires i <= |t|
    ensures |r| <= room && |r| <= |t| - i
    decreases |t| - i
  {
    if i == |t| || room == 0 then [] else [Round(t, i).0] + Strip(t, Round(t, i).1, room - 1)
  }

  predicate IsSpace(c: char) {
    c == ' ' || c == '\t' || c == '\n' || c == '\r'
  }

  function Collapse(s: string, inSpace: bool): (r: string)
    ensures |r| <= |s|
    decreases |s|
  {
    if s == [] then []
    else if IsSpace(s[0]) then (if inSpace then [] else [' ']) + Collapse(s[1..], true)
    else [s[0]] + Collapse(s[1..], false)
  }

  function TrimEnd(s: string): (r: string)
    ensures r <= s
  {
    if s != [] && s[|s| - 1] == ' ' then TrimEnd(s[..|s| - 1]) else s
  }

  function Scrub(text: string, cap: nat): string
    requires cap > 0
  {
    TrimEnd(Collapse(Strip(text, 0, cap - 1), true))
  }

  // -------------------------------------------------------------- the names spelt out

  /** The four characters from i on are the name of the tag, each letter small or capital. */
  predicate Spelt(t: string, i: nat, tag: string) {
    && i + 4 <= |t|
    && match tag
       case "tool" =>
         t[i] in {'t', 'T'} && t[i + 1] in {'o', 'O'} && t[i + 2] in {'o', 'O'} && t[i + 3] in {'l', 'L'}
       case "args" =>
         t[i] in {'a', 'A'} && t[i + 1] in {'r', 'R'} && t[i + 2] in {'g', 'G'} && t[i + 3] in {'s', 'S'}
       case _ => false
  }

  lemma SpeltIff(t: string, i: nat, tag: string)
    requires i + 4 <= |t| && tag in TAGS
    ensures LowerAll(t[i..i + 4]) == tag <==> Spelt(t, i, tag)
  {
    var name := LowerAll(t[i..i + 4]);
    assert |tag| == 4;
    assert name == [Lower(t[i]), Lower(t[i + 1]), Lower(t[i + 2]), Lower(t[i + 3])];
    assert name == tag <==> name[0] == tag[0] && name[1] == tag[1] && name[2] == tag[2] && name[3] == tag[3];
  }

  /** What opens and what closes a region, letter by letter. */
  lemma OpensIff(t: string, i: nat, tag: string)
    requires tag in TAGS
    ensures Opens(t, i, tag) <==>
              i + 6 <= |t| && t[i] == '<' && Spelt(t, i + 1, tag) && t[i + 5] in {'>', ' ', '\t'}
    ensures Closes(t, i, tag) <==>
              i + 7 <= |t| && t[i] == '<' && t[i + 1] == '/' && Spelt(t, i + 2, tag) && t[i + 6] == '>'
  {
    if i + 6 <= |t| { SpeltIff(t, i + 1, tag); }
    if i + 7 <= |t| { SpeltIff(t, i + 2, tag); }
    assert |tag| == 4;
    hide LowerAll, Spelt;
  }

  // ------------------------------------------------------------------ the buffer code

  /** The buffer still holds the text from position i on. */
  ghost predicate StillHolds(buf: seq<char>, t: string, i: nat) {
    |t| <= |buf| && forall k :: i <= k < |t| ==> buf[k] == t[k]
  }

  method TagMatchAt(buf: array<char>, n: nat, at: nat, tag: string, ghost t: string) returns (r: bool)
    requires n == |t| && StillHolds(buf[..], t, at)
    ensures r == Opens(t, at, tag)
  {
    if at + |tag| + 2 > n { return false; }
    if buf[at] != '<' { return false; }
    assert buf[at + 1..at + 1 + |tag|] == t[at + 1..at + 1 + |tag|];
    if LowerAll(buf[at + 1..at + 1 + |tag|]) != tag { return false; }
    var terminator := buf[at + 1 + |tag|];
    return terminator == '>' || terminator == ' ' || terminator == '\t';
  }

  method CloseTagMatchAt(buf: array<char>, n: nat, at: nat, tag: string, ghost t: string) returns (r: bool)
    requires n == |t| && StillHolds(buf[..], t, at)
    ensures r == Closes(t, at, tag)
  {
    if at + |tag| + 3 > n { return false; }
    if buf[at] != '<' || buf[at + 1] != '/' { return false; }
    assert buf[at + 2..at + 2 + |tag|] == t[at + 2..at + 2 + |tag|];
    if LowerAll(buf[at + 2..at + 2 + |tag|]) != tag { return false; }
    return buf[at + 2 + |tag|] == '>';
  }

  method SkipToClose(buf: array<char>, n: nat, from: nat, tag: string, ghost t: string) returns (i: nat)
    requires from < n == |t| && StillHolds(buf[..], t, from)
    ensures i == PastRegion(t, from, tag)
  {
    hide Closes;
    i := from;
    while i < n && buf[i] != '>'
      invariant from <= i <= n && PastGt(t, from) == PastGt(t, i)
    {
      i := i + 1;
    }
    if i < n { i := i + 1; }
    while i < n
      invariant from < i <= n && PastRegion(t, from, tag) == PastClose(t, i, tag)
    {
      var closes := CloseTagMatchAt(buf, n, i, tag, t);
      if closes { return i + |tag| + 3; }
      i := i + 1;
    }
  }

  method StripRound(input: array<char>, n: nat, i: nat, ghost t: string) returns (copied: char, next: nat)
    requires i < n == |t| && StillHolds(input[..], t, i)
    ensures Round(t, i) == (copied, next)
  {
    hide Opens, PastRegion;
    copied, next := input[i], i + 1;
    var opens := TagMatchAt(input, n, i, "tool", t);
    if opens {
      next := SkipToClose(input, n, i, "tool", t);
      copied := ' ';
    } else {
      opens := TagMatchAt(input, n, i, "args", t);
      if opens {
        next := SkipToClose(input, n, i, "args", t);
        copied := ' ';
      }
    }
  }

  /** First pass: from `input` to `out`, which may be the same buffer. */
  method StripPass(input: array<char>, out: array<char>, cap: nat) returns (oi: nat)
    requires '\0' in input[..] && 0 < cap <= out.Length
    modifies out
    ensures oi < cap && out[..oi] == Strip(Text(old(input[..]), '\0'), 0, cap - 1) && out[oi] == '\0'
  {
    ghost var text := Text(input[..], '\0');
    ghost var all := Strip(text, 0, cap - 1);
    var n := StrLen(input, '\0');
    StripStarts(out[..], text, cap);
    hide Text, Round, Strip, Stripped;
    oi := 0;
    var i := 0;
    while i < n && oi + 1 < cap
      invariant oi <= i <= n == |text| && oi < cap
      invariant StillHolds(input[..], text, i)
      invariant Stripped(out[..], all, oi, text, i, cap)
      decreases n - i
    {
      var copied, next := StripRound(input, n, i, text);
      StripOneRound(out[..], all, oi, text, i, cap);
      out[oi] := copied;
      oi := oi + 1;
      i := next;
    }
    StripEnds(out[..], all, oi, text, i, cap);
    out[oi] := '\0';
  }

  /** oi characters of the result are in the buffer, the rest is to come from position i on. */
  ghost predicate Stripped(out: seq<char>, all: string, oi: nat, t: string, i: nat, cap: nat) {
    i <= |t| && oi < cap <= |out| && all == out[..oi] + Strip(t, i, cap - 1 - oi)
  }

  lemma StripStarts(out: seq<char>, t: string, cap: nat)
    requires 0 < cap <= |out|
    ensures Stripped(out, Strip(t, 0, cap - 1), 0, t, 0, cap)
  {
  }

  lemma StripOneRound(out: seq<char>, all: string, oi: nat, t: string, i: nat, cap: nat)
    requires Stripped(out, all, oi, t, i, cap) && i < |t| && oi + 1 < cap
    ensures Stripped(out[oi := Round(t, i).0], all, oi + 1, t, Round(t, i).1, cap)
  {
    hide Round;
    var out' := out[oi := Round(t, i).0];
    assert out'[..oi + 1] == out[..oi] + [Round(t, i).0];
  }

  lemma StripEnds(out: seq<char>, all: string, oi: nat, t: string, i: nat, cap: nat)
    requires Stripped(out, all, oi, t, i, cap) && (i == |t| || oi + 1 == cap)
    ensures oi < |out| && out[..oi] == all
  {
  }

  /** w characters of the result are in the buffer, the rest is to come from position r on. */
  ghost predicate Collapsed(out: seq<char>, all: string, w: nat, s: string, r: nat, inSpace: bool) {
    && w <= r <= |s| <= |out| && StillHolds(out, s, r)
    && all == out[..w] + Collapse(s[r..], inSpace)
  }

  lemma CollapseSkips(out: seq<char>, all: string, w: nat, s: string, r: nat)
    requires Collapsed(out, all, w, s, r, true) && r < |s| && IsSpace(s[r])
    ensures Collapsed(out, all, w, s, r + 1, true)
  {
    assert s[r..][1..] == s[r + 1..];
  }

  lemma CollapseWrites(out: seq<char>, all: string, w: nat, s: string, r: nat, inSpace: bool)
    requires Collapsed(out, all, w, s, r, inSpace) && r < |s| && (IsSpace(s[r]) ==> !inSpace)
    ensures Collapsed(out[w := if IsSpace(s[r]) then ' ' else s[r]], all, w + 1, s, r + 1, IsSpace(s[r]))
  {
    var c := if IsSpace(s[r]) then ' ' else s[r];
    assert s[r..][1..] == s[r + 1..];
    assert out[w := c][..w + 1] == out[..w] + [c];
  }

  lemma CollapseStarts(out: seq<char>, s: string)
    requires |s| <= |out| && s == out[..|s|]
    ensures Collapsed(out, Collapse(s, true), 0, s, 0, true)
  {
  }

  lemma CollapseEnds(out: seq<char>, all: string, w: nat, s: string, r: nat, inSpace: bool)
    requires Collapsed(out, all, w, s, r, inSpace)
    ensures r < |s| ==> out[r] == s[r]
    ensures r == |s| ==> out[..w] == all
  {
  }

  /** Second pass, in place. */
  method CompactPass(out: array<char>, oi: nat) returns (w: nat)
    requires oi < out.Length
    modifies out
    ensures w <= oi && out[..w] == TrimEnd(Collapse(old(out[..oi]), true)) && out[w] == '\0'
  {
    ghost var s := out[..oi];
    ghost var all := Collapse(s, true);
    CollapseStarts(out[..], s);
    hide Collapse, Collapsed, TrimEnd;
    var r := 0;
    w := 0;
    var inSpace := true;
    while r < oi
      invariant w <= r <= oi && Collapsed(out[..], all, w, s, r, inSpace)
    {
      CollapseEnds(out[..], all, w, s, r, inSpace);
      var c := out[r];
      if IsSpace(c) {
        if !inSpace {
          CollapseWrites(out[..], all, w, s, r, inSpace);
          out[w] := ' ';
          w := w + 1;
          inSpace := true;
        } else {
          CollapseSkips(out[..], all, w, s, r);
        }
      } else {
        CollapseWrites(out[..], all, w, s, r, inSpace);
        out[w] := c;
        w := w + 1;
        inSpace := false;
      }
      r := r + 1;
    }
    CollapseEnds(out[..], all, w, s, r, inSpace);
    w := TrimSpaces(out, w);
    out[w] := '\0';
  }

  method TrimSpaces(out: array<char>, end: nat) returns (w: nat)
    requires end <= out.Length
    ensures w <= end && out[..w] == TrimEnd(out[..end])
  {
    w := end;
    while w > 0 && out[w - 1] == ' '
      invariant w <= end && TrimEnd(out[..end]) == TrimEnd(out[..w])
    {
      assert out[..w][..w - 1] == out[..w - 1];
      w := w - 1;
    }
  }

  method MdStripToolMarkers(input: array?<char>, out: array?<char>, cap: nat)
    requires input != null ==> '\0' in input[..]
    requires out != null ==> cap <= out.Length
    modifies if out == null then {} else {out}
    ensures out != null && cap == 0 ==> out[..] == old(out[..])
    ensures out != null && cap > 0 ==>
              var r := if input == null then [] else Scrub(Text(old(input[..]), '\0'), cap);
              |r| < cap && out[..|r|] == r && out[|r|] == '\0'
  {
    if out == null || cap == 0 { return; }
    if input == null {
      out[0] := '\0';
      return;
    }
    var oi := StripPass(input, out, cap);
    var w := CompactPass(out, oi);
  }

  // -------------------------------------------------------- what the result is like

  /** A marker such as <tool>, in any letter case, at position k. */
  predicate MarkerAt(s: string, k: nat, tag: string) {
    k + |tag| + 2 <= |s| && s[k] == '<' && LowerAll(s[k + 1..k + 1 + |tag|]) == tag && s[k + 1 + |tag|] == '>'
  }

  predicate NoSpace(s: string, k: nat, m: nat) {
    k + m <= |s| && forall j :: k <= j < k + m ==> !IsSpace(s[j])
  }

  lemma MarkerHasNoSpace(s: string, k: nat, tag: string)
    requires MarkerAt(s, k, tag) && tag in TAGS
    ensures NoSpace(s, k, |tag| + 2)
  {
    forall j | k <= j < k + |tag| + 2 ensures !IsSpace(s[j]) {
      if k < j <= k + |tag| {
        assert LowerAll(s[k + 1..k + 1 + |tag|])[j - k - 1] == Lower(s[j]) == tag[j - k - 1];
      }
    }
  }

  /** A stretch without blanks at the head of the first pass's output was next to each other in the text. */
  lemma {:induction false} StripCopies(t: string, i: nat, room: nat, m: nat)
    requires i <= |t| && NoSpace(Strip(t, i, room), 0, m)
    ensures i + m <= |t| && t[i..i + m] == Strip(t, i, room)[..m]
    ensures m > 0 ==> !Opens(t, i, "tool") && !Opens(t, i, "args")
    decreases m
  {
    hide Opens, PastRegion;
    if m > 0 {
      var r := Strip(t, i, room);
      assert !IsSpace(r[0]);
      assert r[0] == Round(t, i).0 == t[i] && Round(t, i).1 == i + 1;
      var rest := Strip(t, i + 1, room - 1);
      assert r[1..] == rest;
      forall j | 0 <= j < m - 1 ensures !IsSpace(rest[j]) { assert rest[j] == r[j + 1]; }
      StripCopies(t, i + 1, room - 1, m - 1);
      assert t[i..i + m] == [t[i]] + t[i + 1..i + 1 + (m - 1)];
      assert r[..m] == [r[0]] + rest[..m - 1];
    }
  }

  lemma SliceOfSlice(s: string, k: nat, m: nat, i: nat, j: nat)
    requires k + m <= |s| && i <= j <= m
    ensures s[k..k + m][i..j] == s[k + i..k + j]
  {
    var a := s[k..k + m];
    forall x | 0 <= x < j - i ensures a[i..j][x] == s[k + i..k + j][x] {
      assert a[i..j][x] == a[i + x] == s[k + (i + x)];
    }
  }

  lemma MarkerMoves(s: string, k: nat, s': string, k': nat, tag: string)
    requires MarkerAt(s, k, tag) && k' + |tag| + 2 <= |s'|
    requires s'[k'..k' + |tag| + 2] == s[k..k + |tag| + 2]
    ensures MarkerAt(s', k', tag) && Opens(s', k', tag)
  {
    var a, b, n := s[k..k + |tag| + 2], s'[k'..k' + |tag| + 2], |tag|;
    SliceOfSlice(s, k, n + 2, 1, n + 1);
    SliceOfSlice(s', k', n + 2, 1, n + 1);
    assert s[k] == a[0] && s'[k'] == b[0] && s[k + 1 + n] == a[1 + n] && s'[k' + 1 + n] == b[1 + n];
  }

  lemma SliceOfCons(c: char, rest: string, k: nat, n: nat)
    requires 0 < k && k + n <= 1 + |rest|
    ensures ([c] + rest)[k..k + n] == rest[k - 1..k - 1 + n]
  {
  }

  lemma StripHeadIsNoMarker(t: string, i: nat, room: nat, tag: string)
    requires i <= |t| && tag in TAGS
    ensures !MarkerAt(Strip(t, i, room), 0, tag)
  {
    hide Strip, Opens, LowerAll;
    var r, n := Strip(t, i, room), |tag| + 2;
    if MarkerAt(r, 0, tag) {
      assert n <= |r|;
      MarkerHasNoSpace(r, 0, tag);
      StripCopies(t, i, room, n);
      hide MarkerAt, NoSpace;
      assert r[..n] == r[0..n];
      MarkerMoves(r, 0, t, i, tag);
    }
  }

  lemma MarkerFits(s: string, k: nat, tag: string)
    requires MarkerAt(s, k, tag)
    ensures k + |tag| + 2 <= |s|
  {
  }

  lemma StripTailMarker(t: string, i: nat, room: nat, k: nat, tag: string)
    requires i <= |t| && k > 0 && MarkerAt(Strip(t, i, room), k, tag)
    ensures i < |t| && room > 0 && MarkerAt(Strip(t, Round(t, i).1, room - 1), k - 1, tag)
  {
    hide *;
    var n := |tag| + 2;
    MarkerFits(Strip(t, i, room), k, tag);
    StripUnrolls(t, i, room);
    var rest := Strip(t, Round(t, i).1, room - 1);
    SliceOfCons(Round(t, i).0, rest, k, n);
    MarkerMoves([Round(t, i).0] + rest, k, rest, k - 1, tag);
  }

  lemma {:induction false} StripLeavesNoMarker(t: string, i: nat, room: nat, k: nat, tag: string)
    requires i <= |t| && tag in TAGS
    ensures !MarkerAt(Strip(t, i, room), k, tag)
    decreases k
  {
    hide Round, Opens, LowerAll, Strip, MarkerAt;
    if k == 0 {
      StripHeadIsNoMarker(t, i, room, tag);
    } else if MarkerAt(Strip(t, i, room), k, tag) {
      StripTailMarker(t, i, room, k, tag);
      StripLeavesNoMarker(t, Round(t, i).1, room - 1, k - 1, tag);
    }
  }

  lemma {:induction false} CollapseCopies(s: string, m: nat)
    requires NoSpace(Collapse(s, false), 0, m)
    ensures m <= |s| && s[..m] == Collapse(s, false)[..m]
    decreases m
  {
    if m > 0 {
      var r, rest := Collapse(s, false), Collapse(s[1..], false);
      assert !IsSpace(r[0]);
      assert r == [s[0]] + rest;
      forall j | 0 <= j < m - 1 ensures !IsSpace(rest[j]) { assert rest[j] == r[j + 1]; }
      CollapseCopies(s[1..], m - 1);
      assert s[..m] == [s[0]] + s[1..][..m - 1];
      assert r[..m] == [r[0]] + rest[..m - 1];
    }
  }

  /** The part of a collapsed text that its first character gives rise to. */
  function CollapsedHead(s: string, inSpace: bool): string
    requires s != []
  {
    if !IsSpace(s[0]) then [s[0]] else if inSpace then [] else [' ']
  }

  lemma CollapseUnrolls(s: string, inSpace: bool)
    requires s != []
    ensures Collapse(s, inSpace) == CollapsedHead(s, inSpace) + Collapse(s[1..], IsSpace(s[0]))
    ensures !IsSpace(s[0]) ==> Collapse(s, inSpace) == Collapse(s, false)
  {
  }

  lemma MarkerAtWord(s: string, inSpace: bool, tag: string)
    requires s != [] && !IsSpace(s[0]) && MarkerAt(Collapse(s, inSpace), 0, tag) && tag in TAGS
    ensures MarkerAt(s, 0, tag)
  {
    var r, n := Collapse(s, inSpace), |tag| + 2;
    MarkerHasNoSpace(r, 0, tag);
    CollapseUnrolls(s, inSpace);
    assert n <= |r|;
    hide Collapse, MarkerAt, NoSpace, LowerAll, Opens;
    CollapseCopies(s, n);
    assert s[0..n] == s[..n] && r[0..n] == r[..n];
    MarkerMoves(r, 0, s, 0, tag);
  }

  lemma MarkerAfter(head: string, rest: string, k: nat, tag: string)
    requires |head| <= 1 && |head| <= k && MarkerAt(head + rest, k, tag)
    ensures MarkerAt(rest, k - |head|, tag)
  {
    if head == [] {
      assert head + rest == rest;
    } else {
      assert k + |tag| + 2 <= 1 + |rest|;
      assert head == [head[0]];
      hide *;
      SliceOfCons(head[0], rest, k, |tag| + 2);
      MarkerMoves([head[0]] + rest, k, rest, k - 1, tag);
    }
  }

  lemma MarkerFurtherOn(s: string, inSpace: bool, k: nat, tag: string)
    requires s != [] && (k > 0 || IsSpace(s[0])) && MarkerAt(Collapse(s, inSpace), k, tag) && tag in TAGS
    ensures var head, rest := CollapsedHead(s, inSpace), Collapse(s[1..], IsSpace(s[0]));
            |head| <= k && MarkerAt(rest, k - |head|, tag)
  {
    var head, rest := CollapsedHead(s, inSpace), Collapse(s[1..], IsSpace(s[0]));
    CollapseUnrolls(s, inSpace);
    assert (head + rest)[k] == '<';
    assert |head| <= k;
    assert |head| <= 1;
    hide *;
    MarkerAfter(head, rest, k, tag);
  }

  lemma {:induction false} CollapseKeepsMarker(s: string, inSpace: bool, k: nat, tag: string) returns (k': nat)
    requires MarkerAt(Collapse(s, inSpace), k, tag) && tag in TAGS
    ensures MarkerAt(s, k', tag)
    decreases |s|
  {
    assert s != [];
    hide *;
    if k == 0 && !IsSpace(s[0]) {
      MarkerAtWord(s, inSpace, tag);
      k' := 0;
    } else {
      MarkerFurtherOn(s, inSpace, k, tag);
      k' := CollapseKeepsMarker(s[1..], IsSpace(s[0]), k - |CollapsedHead(s, inSpace)|, tag);
      MarkerMovesBack(s, k', tag);
      k' := k' + 1;
    }
  }

  lemma MarkerMovesBack(s: string, k: nat, tag: string)
    requires s != [] && MarkerAt(s[1..], k, tag)
    ensures MarkerAt(s, k + 1, tag)
  {
    assert s[1..][k + 1..k + 1 + |tag|] == s[k + 2..k + 2 + |tag|];
  }

  /** Blanks are single spaces, none in front when `inSpace`. */
  predicate Spaced(r: string, inSpace: bool) {
    && (forall i :: 0 <= i < |r| && IsSpace(r[i]) ==> r[i] == ' ')
    && (forall i :: 0 <= i < |r| - 1 && r[i] == ' ' ==> r[i + 1] != ' ')
    && (inSpace && r != [] ==> r[0] != ' ')
  }

  lemma {:induction false} CollapseIsSpaced(s: string, inSpace: bool)
    ensures Spaced(Collapse(s, inSpace), inSpace)
    decreases |s|
  {
    if s != [] { CollapseIsSpaced(s[1..], IsSpace(s[0])); }
  }

  lemma {:induction false} TrimEndEnds(s: string)
    ensures TrimEnd(s) != [] ==> TrimEnd(s)[|TrimEnd(s)| - 1] != ' '
  {
    if s != [] && s[|s| - 1] == ' ' { TrimEndEnds(s[..|s| - 1]); }
  }

  /** Whatever the text and however little room there is: no marker is left, not even
      one put together from fragments, and blanks are single spaces between words. */
  lemma ScrubIsClean(text: string, cap: nat)
    requires cap > 0
    ensures var r := Scrub(text, cap);
            && |r| < cap && |r| <= |text|
            && (forall k, tag :: k >= 0 && tag in TAGS ==> !MarkerAt(r, k, tag))
            && (forall k, tag :: 0 <= k && k + 6 <= |r| && tag in TAGS && r[k] == '<' && Spelt(r, k + 1, tag) ==> r[k + 5] != '>')
            && Spaced(r, true) && (r != [] ==> !IsSpace(r[|r| - 1]))
  {
    var r, c := Scrub(text, cap), Collapse(Strip(text, 0, cap - 1), true);
    CollapseIsSpaced(Strip(text, 0, cap - 1), true);
    TrimEndEnds(c);
    forall k, tag | k >= 0 && tag in TAGS ensures !MarkerAt(r, k, tag) {
      if MarkerAt(r, k, tag) {
        assert r[k..k + |tag| + 2] == c[k..k + |tag| + 2];
        MarkerMoves(r, k, c, k, tag);
        var k' := CollapseKeepsMarker(Strip(text, 0, cap - 1), true, k, tag);
        StripLeavesNoMarker(text, 0, cap - 1, k', tag);
      }
    }
    forall k, tag | 0 <= k && k + 6 <= |r| && tag in TAGS && r[k] == '<' && Spelt(r, k + 1, tag) ensures r[k + 5] != '>' {
      SpeltIff(r, k + 1, tag);
      assert !MarkerAt(r, k, tag);
    }
    hide Spelt, Strip, Collapse, TrimEnd;
  }

  /** No tag opens anywhere from i up to j. */
  predicate NoTag(t: string, i: nat, j: nat) {
    forall p :: i <= p < j ==> !Opens(t, p, "tool") && !Opens(t, p, "args")
  }

  lemma {:induction false} PlainTextIsCopied(t: string, i: nat, j: nat, room: nat)
    requires i <= j <= |t| && room >= j - i && NoTag(t, i, j)
    ensures Strip(t, i, room) == t[i..j] + Strip(t, j, room - (j - i))
    decreases j - i
  {
    hide Opens, PastRegion;
    if i < j {
      assert Round(t, i) == (t[i], i + 1);
      hide Round;
      PlainTextIsCopied(t, i + 1, j, room - 1);
      assert t[i..j] == [t[i]] + t[i + 1..j];
    }
  }

  lemma {:induction false} FirstClose(t: string, i: nat, c: nat, tag: string)
    requires i <= c < |t| && Closes(t, c, tag)
    requires forall p :: i <= p < c ==> !Closes(t, p, tag)
    ensures PastClose(t, i, tag) == c + |tag| + 3
    decreases c - i
  {
    hide Closes;
    if i < c { FirstClose(t, i + 1, c, tag); }
  }

  lemma {:induction false} FirstGt(t: string, i: nat, g: nat)
    requires i <= g < |t| && t[g] == '>' && forall p :: i <= p < g ==> t[p] != '>'
    ensures PastGt(t, i) == g + 1
    decreases g - i
  {
    if i < g { FirstGt(t, i + 1, g); }
  }

  /** A region: a tag at `open`, its first `>` at gt, and after that its first closing tag at `close`. */
  predicate IsRegion(t: string, open: nat, gt: nat, close: nat, tag: string) {
    && open <= gt < close < |t| && tag in TAGS && Opens(t, open, tag)
    && t[gt] == '>' && (forall p :: open <= p < gt ==> t[p] != '>')
    && Closes(t, close, tag) && (forall p :: gt < p < close ==> !Closes(t, p, tag))
  }

  lemma RegionIsSkipped(t: string, open: nat, gt: nat, close: nat, tag: string)
    requires IsRegion(t, open, gt, close, tag)
    ensures open < |t| && Round(t, open) == (' ', close + |tag| + 3)
  {
    FirstGt(t, open, gt);
    FirstClose(t, gt + 1, close, tag);
    if tag == "args" { OneTag(t, open); }
    hide PastGt, PastClose, LowerAll;
  }

  lemma RegionIsOneSpace(t: string, open: nat, gt: nat, close: nat, tag: string, room: nat, before: string)
    requires IsRegion(t, open, gt, close, tag) && room > 0
    ensures open <= |t| && close + |tag| + 3 <= |t|
    ensures before + Strip(t, open, room) == before + " " + Strip(t, close + |tag| + 3, room - 1)
  {
    hide *;
    RegionIsSkipped(t, open, gt, close, tag);
    StripUnrolls(t, open, room);
    assert [' '] == " ";
  }

  lemma StripUnrolls(t: string, i: nat, room: nat)
    requires i < |t| && room > 0
    ensures Strip(t, i, room) == [Round(t, i).0] + Strip(t, Round(t, i).1, room - 1)
  {
    hide Round;
  }

  /** The first region turns into one space; the text before it stays as it is, and
      reading goes on right after its closing tag. */
  lemma FirstRegionBecomesBlank(t: string, open: nat, gt: nat, close: nat, tag: string, room: nat)
    requires IsRegion(t, open, gt, close, tag) && NoTag(t, 0, open) && room > open
    ensures close + |tag| + 3 <= |t| && open <= |t|
    ensures Strip(t, 0, room) == t[0..open] + " " + Strip(t, close + |tag| + 3, room - open - 1)
  {
    hide *;
    RegionIsOneSpace(t, open, gt, close, tag, room - open, t[0..if open <= |t| then open else 0]);
    PlainTextIsCopied(t, 0, open, room);
  }

  lemma OneTag(t: string, i: nat)
    requires Opens(t, i, "args")
    ensures !Opens(t, i, "tool")
  {
    assert LowerAll(t[i + 1..i + 5])[0] == 'a';
  }
}
