// md_strip_inline and md_strip_inline_with_ellipsis of main/md_strip.c, on NUL-terminated
// buffers that may be one and the same.

module InlineStrip {
  import opened CString
  import opened InlineText
  import opened InlineInPlace

  // ------------------------------------------------------------------- the main loop

  /** oi bytes of the result are in the buffer, the rest is to come from position i on. */
  ghost predicate Emitted(out: seq<Byte>, all: seq<Byte>, oi: nat, t: seq<Byte>, i: nat, cap: nat) {
    && i <= |t| && oi < cap <= |out|
    && all == out[..oi] + Inline(t[i..], LineStart(t, i), cap - 1 - oi)
  }

  lemma EmitStarts(out: seq<Byte>, t: seq<Byte>, cap: nat)
    requires 0 < cap <= |out|
    ensures Emitted(out, Inline(t, true, cap - 1), 0, t, 0, cap)
  {
    assert t[0..] == t;
  }

  lemma EmitEnds(out: seq<Byte>, all: seq<Byte>, oi: nat, t: seq<Byte>, i: nat, cap: nat)
    requires Emitted(out, all, oi, t, i, cap) && (i == |t| || oi + 1 == cap)
    ensures out[..oi] == all && oi < |out|
  {
  }

  lemma EmitRound(out: seq<Byte>, all: seq<Byte>, oi: nat, t: seq<Byte>, i: nat, cap: nat, e: seq<Byte>, k: nat)
    requires Emitted(out, all, oi, t, i, cap) && i < |t| && oi + 1 < cap && (e, k) == Round(t[i..], LineStart(t, i))
    ensures oi < cap <= |out| && i + k <= |t|
    ensures if |e| <= cap - 1 - oi then Emitted(Overwrite(out, oi, e), all, oi + |e|, t, i + k, cap)
            else Emitted(out, all, oi, t, i + k, cap)
  {
    hide Round, Inline, Overwrite, LineStart;
    RestOf(t, i, k);
    RoomyOrNot(t[i..], LineStart(t, i), cap - 1 - oi, e, k);
    if |e| <= cap - 1 - oi { HeadGrows(out, oi, e, Inline(t[i + k..], LineStart(t, i + k), cap - 1 - oi - |e|)); }
  }

  /** Where the loop is, on one buffer or on two. */
  ghost predicate Stripping(
      same: bool, input: seq<Byte>, out: seq<Byte>, all: seq<Byte>, oi: nat, t: seq<Byte>, i: nat, cap: nat)
  {
    if same then Emitting(out, all, oi, t, i, cap) else t <= input && Emitted(out, all, oi, t, i, cap)
  }

  /** What the loop leaves, on one buffer or on two. */
  function Stripped(same: bool, t: seq<Byte>, room: nat): (r: seq<Byte>)
    ensures |r| <= room
  {
    if same then InPlace(t, true, 0, room) else Inline(t, true, room)
  }

  lemma StrippingStarts(same: bool, input: seq<Byte>, out: seq<Byte>, t: seq<Byte>, cap: nat)
    requires t <= input && 0 < cap <= |out| && (same ==> input == out)
    ensures Stripping(same, input, out, Stripped(same, t, cap - 1), 0, t, 0, cap)
  {
    if same { EmittingStarts(out, t, cap); } else { EmitStarts(out, t, cap); }
  }

  lemma StrippingEnds(
      same: bool, input: seq<Byte>, out: seq<Byte>, all: seq<Byte>, oi: nat, t: seq<Byte>, i: nat, cap: nat)
    requires Stripping(same, input, out, all, oi, t, i, cap)
    ensures i <= |t| && oi < cap <= |out| && (same ==> |t| <= |out|)
    ensures i == |t| || oi + 1 == cap ==> out[..oi] == all
  {
    if same {
      EmittingEnds(out, all, oi, t, i, cap);
    } else if i == |t| || oi + 1 == cap {
      EmitEnds(out, all, oi, t, i, cap);
    }
  }

  lemma StrippingRound(
      same: bool, input: seq<Byte>, out: seq<Byte>, all: seq<Byte>, oi: nat, t: seq<Byte>, i: nat, cap: nat,
      e: seq<Byte>, k: nat)
    requires Stripping(same, input, out, all, oi, t, i, cap) && i < |t| && oi + 1 < cap && (same ==> input == out)
    requires |t| <= |input| && (e, k) == BufRound(input, |t|, i)
    ensures oi < cap <= |out|
    ensures if |e| <= cap - 1 - oi
            then
              var out' := Overwrite(out, oi, e);
              Stripping(same, if same then out' else input, out', all, oi + |e|, t, i + k, cap)
            else Stripping(same, input, out, all, oi, t, i + k, cap)
  {
    hide Emitting, Emitted, BufRound, Overwrite;
    if same {
      SameBufferRound(out, all, oi, t, i, cap, e, k);
    } else {
      TwoBufferRound(input, out, all, oi, t, i, cap, e, k);
    }
  }

  lemma SameBufferRound(
      out: seq<Byte>, all: seq<Byte>, oi: nat, t: seq<Byte>, i: nat, cap: nat, e: seq<Byte>, k: nat)
    requires Emitting(out, all, oi, t, i, cap) && i < |t| && oi + 1 < cap
    requires |t| <= |out| && (e, k) == BufRound(out, |t|, i)
    ensures oi < cap <= |out|
    ensures if |e| <= cap - 1 - oi then Emitting(Overwrite(out, oi, e), all, oi + |e|, t, i + k, cap)
            else Emitting(out, all, oi, t, i + k, cap)
  {
    hide Emitting, BufRound, Overwrite;
    EmittingRound(out, all, oi, t, i, cap);
  }

  lemma TwoBufferRound(
      input: seq<Byte>, out: seq<Byte>, all: seq<Byte>, oi: nat, t: seq<Byte>, i: nat, cap: nat,
      e: seq<Byte>, k: nat)
    requires t <= input && Emitted(out, all, oi, t, i, cap) && i < |t| && oi + 1 < cap
    requires (e, k) == BufRound(input, |t|, i)
    ensures oi < cap <= |out|
    ensures if |e| <= cap - 1 - oi then Emitted(Overwrite(out, oi, e), all, oi + |e|, t, i + k, cap)
            else Emitted(out, all, oi, t, i + k, cap)
  {
    assert input[i..|t|] == t[i..] && LineStart(input, i) == LineStart(t, i);
    assert (e, k) == Round(t[i..], LineStart(t, i));
    hide Emitted, BufRound, Overwrite, Round;
    EmitRound(out, all, oi, t, i, cap, e, k);
  }

  /** One turn of the loop: what it finds at position i, whatever is in the buffer by now. */
  method OneRound(input: array<Byte>, n: nat, i: nat) returns (e: seq<Byte>, k: nat)
    requires i < n <= input.Length
    ensures (e, k) == BufRound(input[..], n, i)
  {
    ghost var rest := input[i..n];
    assert input[..][i..n] == rest;
    var c := input[i];
    var lineStart := i == 0 || input[i - 1] == LF;
    if c == HASH && lineStart {
      var j := i;
      while j < n && input[j] == HASH
        invariant i <= j <= n && Hashes(rest) == j - i + Hashes(rest[j - i..])
      {
        assert rest[j - i..][1..] == rest[j + 1 - i..];
        j := j + 1;
      }
      if j < n && input[j] == SPACE {
        return [], j + 1 - i;
      }
    }
    if (c == DASH || c == STAR) && lineStart && i + 1 < n && input[i + 1] == SPACE {
      return [0xE2, 0x80, 0xA2, SPACE], 2;
    }
    if c == STAR || c == UNDERSCORE {
      return [], if i + 1 < n && input[i + 1] == c then 2 else 1;
    }
    if c == 0xE2 && i + 2 < n && input[i + 1] == 0x80 {
      var repl := Fold(input[i + 2]);
      if repl != [] {
        return repl, 3;
      }
    }
    return [c], 1;
  }

  method Put(out: array<Byte>, oi: nat, e: seq<Byte>)
    requires oi + |e| <= out.Length
    modifies out
    ensures out[..] == Overwrite(old(out[..]), oi, e)
  {
    forall j | 0 <= j < |e| { out[oi + j] := e[j]; }
  }

  method StripRound(
      input: array<Byte>, n: nat, out: array<Byte>, cap: nat, oi: nat, i: nat,
      ghost all: seq<Byte>, ghost t: seq<Byte>) returns (oi': nat, i': nat)
    requires i < n == |t| <= input.Length && oi + 1 < cap
    requires Stripping(input == out, input[..], out[..], all, oi, t, i, cap)
    modifies out
    ensures i < i' <= n && Stripping(input == out, input[..], out[..], all, oi', t, i', cap)
  {
    hide *;
    ghost var same, before, read := input == out, out[..], input[..];
    StrippingEnds(same, read, before, all, oi, t, i, cap);
    var e, k := OneRound(input, n, i);
    StrippingRound(same, read, before, all, oi, t, i, cap, e, k);
    oi', i' := oi, i + k;
    if |e| <= cap - 1 - oi {
      Put(out, oi, e);
      oi' := oi + |e|;
    }
  }

  method StripInto(input: array<Byte>, out: array<Byte>, cap: nat) returns (oi: nat)
    requires 0 in input[..] && 0 < cap <= out.Length
    modifies out
    ensures oi < cap && out[..oi] == Stripped(input == out, Text(old(input[..]), 0), cap - 1) && out[oi] == 0
  {
    ghost var t := Text(input[..], 0);
    ghost var all := Stripped(input == out, t, cap - 1);
    var n := StrLen(input, 0);
    StrippingStarts(input == out, input[..], out[..], t, cap);
    hide *;
    oi := 0;
    var i := 0;
    while i < n && oi + 1 < cap
      invariant i <= n && Stripping(input == out, input[..], out[..], all, oi, t, i, cap)
      decreases n - i
    {
      oi, i := StripRound(input, n, out, cap, oi, i, all, t);
    }
    StrippingEnds(input == out, input[..], out[..], all, oi, t, i, cap);
    out[oi] := 0;
  }

  method MdStripInline(input: array?<Byte>, out: array?<Byte>, cap: nat)
    requires input != null ==> 0 in input[..]
    requires out != null ==> cap <= out.Length
    modifies if out == null then {} else {out}
    ensures out != null && cap == 0 ==> out[..] == old(out[..])
    ensures out != null && cap > 0 ==>
              var r := if input == null then [] else Stripped(input == out, Text(old(input[..]), 0), cap - 1);
              |r| < cap && out[..|r|] == r && out[|r|] == 0
  {
    if out == null || cap == 0 { return; }
    if input == null {
      out[0] := 0;
      return;
    }
    var oi := StripInto(input, out, cap);
  }

  // ------------------------------------------------- the ellipsis for voice captions

  /** What md_strip_inline_with_ellipsis leaves in a buffer of `cap` bytes.  On one buffer
      the text it compares lengths with is no longer there. */
  function Captioned(same: bool, t: seq<Byte>, cap: nat): (r: seq<Byte>)
    requires cap > 0
    ensures |r| < cap
  {
    if cap < 8 then Stripped(same, t, cap - 1)
    else
      var r := Stripped(same, t, cap - 4);
      if !same && |t| > |r| then r + ELLIPSIS else r
  }

  method MdStripInlineWithEllipsis(input: array?<Byte>, out: array?<Byte>, cap: nat)
    requires input != null ==> 0 in input[..]
    requires out != null ==> cap <= out.Length
    modifies if out == null then {} else {out}
    ensures out != null && cap == 0 ==> out[..] == old(out[..])
    ensures out != null && cap > 0 ==>
              var r := if input == null then [] else Captioned(input == out, Text(old(input[..]), 0), cap);
              |r| < cap && out[..|r|] == r && out[|r|] == 0
  {
    if out == null || cap == 0 { return; }
    if input == null {
      out[0] := 0;
      return;
    }
    if cap < 8 {
      var oi := StripInto(input, out, cap);
      return;
    }
    StripWithEllipsis(input, out, cap);
  }

  method StripWithEllipsis(input: array<Byte>, out: array<Byte>, cap: nat)
    requires 0 in input[..] && 8 <= cap <= out.Length
    modifies out
    ensures var r := Captioned(input == out, Text(old(input[..]), 0), cap);
            |r| < cap && out[..|r|] == r && out[|r|] == 0
  {
    ghost var t := Text(input[..], 0);
    var reserved := 3;
    var oi := StripInto(input, out, cap - reserved);
    ghost var r := Stripped(input == out, t, cap - 4);
    StrippedHasNoNul(input == out, t, cap - 4);
    hide Stripped, Inline, InPlace;
    TextIs(out[..], 0, r);
    var written := 0;
    while written < cap - reserved && out[written] != 0
      invariant written <= |r|
    {
      written := written + 1;
    }
    var inLen := StrLen(input, 0);
    if inLen > written {
      Put(out, written, ELLIPSIS);
      out[written + 3] := 0;
    }
  }

  lemma StrippedHasNoNul(same: bool, t: seq<Byte>, room: nat)
    requires 0 !in t
    ensures 0 !in Stripped(same, t, room)
  {
    if same { InPlaceHasNoNul(t, true, 0, room); } else { InlineHasNoNul(t, true, room); }
  }

  lemma RoundHasNoNul(rest: seq<Byte>, atLineStart: bool)
    requires rest != [] && 0 !in rest
    ensures 0 !in Round(rest, atLineStart).0
  {
  }

  lemma {:induction false} InlineHasNoNul(rest: seq<Byte>, atLineStart: bool, room: nat)
    requires 0 !in rest
    ensures 0 !in Inline(rest, atLineStart, room)
    decreases |rest|
  {
    hide Round;
    if rest != [] && room > 0 {
      var (e, k) := Round(rest, atLineStart);
      RoundHasNoNul(rest, atLineStart);
      InlineHasNoNul(rest[k..], rest[k - 1] == LF, if |e| <= room then room - |e| else room);
    }
  }

  lemma {:induction false} InPlaceHasNoNul(rest: seq<Byte>, atLineStart: bool, lag: nat, room: nat)
    requires 0 !in rest
    ensures 0 !in InPlace(rest, atLineStart, lag, room)
    decreases |rest|
  {
    hide Round;
    if rest != [] && room > 0 {
      var (e, k) := Round(rest, atLineStart);
      RoundHasNoNul(rest, atLineStart);
      var wrote := if |e| <= room then |e| else 0;
      if wrote <= lag + k { InPlaceHasNoNul(rest[k..], rest[k - 1] == LF, lag + k - wrote, room - wrote); }
    }
  }

  // ----------------------------------------------------------- when the ellipsis comes

  /** How many bullets are written. */
  function Bullets(rest: seq<Byte>, atLineStart: bool, room: nat): nat
    decreases |rest|
  {
    if rest == [] || room == 0 then 0
    else
      var (e, k) := Round(rest, atLineStart);
      if |e| > room then Bullets(rest[k..], rest[k - 1] == LF, room)
      else (if e == BULLET then 1 else 0) + Bullets(rest[k..], rest[k - 1] == LF, room - |e|)
  }

  /** How many bytes of the text are dropped: marks, headings, two of three of a folded
      character, bullets that do not fit, and what is left when the room is used up. */
  function Dropped(rest: seq<Byte>, atLineStart: bool, room: nat): nat
    decreases |rest|
  {
    if rest == [] then 0
    else if room == 0 then |rest|
    else
      var (e, k) := Round(rest, atLineStart);
      if |e| > room then k + Dropped(rest[k..], rest[k - 1] == LF, room)
      else (if e == BULLET then 0 else k - |e|) + Dropped(rest[k..], rest[k - 1] == LF, room - |e|)
  }

  lemma CountsUnroll(rest: seq<Byte>, atLineStart: bool, room: nat, e: seq<Byte>, k: nat)
    requires rest != [] && room > 0 && (e, k) == Round(rest, atLineStart)
    ensures Dropped(rest, atLineStart, room) ==
              if |e| > room then k + Dropped(rest[k..], rest[k - 1] == LF, room)
              else (if e == BULLET then 0 else k - |e|) + Dropped(rest[k..], rest[k - 1] == LF, room - |e|)
    ensures Bullets(rest, atLineStart, room) ==
              if |e| > room then Bullets(rest[k..], rest[k - 1] == LF, room)
              else (if e == BULLET then 1 else 0) + Bullets(rest[k..], rest[k - 1] == LF, room - |e|)
  {
    hide Round;
  }

  lemma NothingToCount(rest: seq<Byte>, atLineStart: bool, room: nat)
    requires rest == [] || room == 0
    ensures Inline(rest, atLineStart, room) == []
    ensures Dropped(rest, atLineStart, room) == |rest| && Bullets(rest, atLineStart, room) == 0
  {
  }

  lemma {:induction false} LengthsBalance(rest: seq<Byte>, atLineStart: bool, room: nat)
    ensures |Inline(rest, atLineStart, room)| + Dropped(rest, atLineStart, room) ==
              |rest| + 2 * Bullets(rest, atLineStart, room)
    decreases |rest|
  {
    assert |BULLET| == 4;
    hide *;
    if rest == [] || room == 0 {
      NothingToCount(rest, atLineStart, room);
    } else {
      var (e, k) := Round(rest, atLineStart);
      RoundEnds(rest, atLineStart);
      RoomyOrNot(rest, atLineStart, room, e, k);
      CountsUnroll(rest, atLineStart, room, e, k);
      LengthsBalance(rest[k..], rest[k - 1] == LF, if |e| <= room then room - |e| else room);
    }
  }

  /** For every text, cut or not: two buffers, and the ellipsis comes if and only if more bytes
      were dropped than bullets have added. */
  lemma EllipsisIffMoreDropped(t: seq<Byte>, cap: nat)
    requires cap >= 8
    ensures Captioned(false, t, cap) ==
              Inline(t, true, cap - 4)
              + if Dropped(t, true, cap - 4) > 2 * Bullets(t, true, cap - 4) then ELLIPSIS else []
  {
    LengthsBalance(t, true, cap - 4);
  }

  /** The text does not come out in full. */
  predicate Cut(t: seq<Byte>, cap: nat)
    requires cap >= 8
  {
    Inline(t, true, cap - 4) != Clean(t, true)
  }

  lemma CutIffTooLong(t: seq<Byte>, cap: nat)
    requires cap >= 8
    ensures Cut(t, cap) <==> |Clean(t, true)| > cap - 4
  {
    if |Clean(t, true)| <= cap - 4 { InlineIsClean(t, true, cap - 4); }
  }

  predicate HasEllipsis(t: seq<Byte>, cap: nat)
    requires cap >= 8
  {
    Captioned(false, t, cap) != Inline(t, true, cap - 4)
  }

  /** Only a bullet can be refused for want of room: a text that is cut fills all but three bytes of it. */
  lemma {:induction false} CutFills(rest: seq<Byte>, atLineStart: bool, room: nat)
    requires Inline(rest, atLineStart, room) != Clean(rest, atLineStart)
    ensures |Inline(rest, atLineStart, room)| + 3 >= room
    decreases |rest|
  {
    assert |BULLET| == 4;
    hide *;
    NothingOfNothing(atLineStart, room);
    if rest != [] && room > 0 {
      var (e, k) := Round(rest, atLineStart);
      RoundEnds(rest, atLineStart);
      RoomyOrNot(rest, atLineStart, room, e, k);
      CleanUnrolls(rest, atLineStart);
      if |e| <= room { CutFills(rest[k..], rest[k - 1] == LF, room - |e|); }
    }
  }

  /** The promise, an ellipsis when and only when the text is cut, by the length of the text.
      One that comes out in full must not come out shorter.  One that is cut must have been
      too long before; if it was short of the room by three bytes or more it never gets its
      ellipsis; only for the three lengths between it depends on what the cut itself drops. */
  lemma EllipsisTellsIff(t: seq<Byte>, cap: nat)
    requires cap >= 8
    ensures |t| > cap - 4 ==> HasEllipsis(t, cap)
    ensures |t| <= cap - 7 && Cut(t, cap) ==> !HasEllipsis(t, cap)
    ensures (HasEllipsis(t, cap) <==> Cut(t, cap)) <==>
              if |Clean(t, true)| <= cap - 4 then |t| <= |Clean(t, true)|
              else if |t| > cap - 4 then true
              else |t| > cap - 7 && Dropped(t, true, cap - 4) > 2 * Bullets(t, true, cap - 4)
  {
    EllipsisIffMoreDropped(t, cap);
    LengthsBalance(t, true, cap - 4);
    CutIffTooLong(t, cap);
    if Cut(t, cap) { CutFills(t, true, cap - 4); }
    hide Dropped, Bullets, Captioned, Clean, Inline;
    assert |Inline(t, true, cap - 4) + ELLIPSIS| != |Inline(t, true, cap - 4)|;
  }

  /** With room enough, the bullets there are and the bytes that go give the length. */
  lemma CleanLength(t: seq<Byte>)
    ensures |Clean(t, true)| + Dropped(t, true, 2 * |t|) == |t| + 2 * Bullets(t, true, 2 * |t|)
  {
    CleanIsBounded(t, true);
    InlineIsClean(t, true, 2 * |t|);
    LengthsBalance(t, true, 2 * |t|);
  }

  /** The result is no longer than the text if and only if the bullets add no more than is
      dropped; and a label buffer holds it if and only if they add no more than that and what
      the buffer has to spare. */
  lemma NotLongerIff(t: seq<Byte>, cap: nat)
    requires cap > 0
    ensures |Clean(t, true)| <= |t| <==> 2 * Bullets(t, true, 2 * |t|) <= Dropped(t, true, 2 * |t|)
    ensures Inline(t, true, cap - 1) == Clean(t, true) <==>
              |t| + 2 * Bullets(t, true, 2 * |t|) < cap + Dropped(t, true, 2 * |t|)
  {
    CleanLength(t);
    if |Clean(t, true)| < cap { InlineIsClean(t, true, cap - 1); }
    hide Inline, Clean, Dropped, Bullets;
  }

  // ------------------------------------------------------------- texts without bullets

  /** A mark, a heading or a character to be folded. */
  predicate Touched(rest: seq<Byte>, atLineStart: bool, p: nat)
    requires p < |rest|
  {
    rest[p] == STAR || rest[p] == UNDERSCORE || IsHeading(rest[p..], LineStartAt(rest, atLineStart, p)) || IsFolded(rest[p..])
  }

  predicate Untouched(rest: seq<Byte>, atLineStart: bool) {
    forall p :: 0 <= p < |rest| ==> !Touched(rest, atLineStart, p)
  }

  lemma TouchedFurtherOn(rest: seq<Byte>, atLineStart: bool)
    requires rest != []
    ensures Untouched(rest, atLineStart) <==> !Touched(rest, atLineStart, 0) && Untouched(rest[1..], rest[0] == LF)
  {
    var later, ls := rest[1..], rest[0] == LF;
    forall p | 0 < p < |rest| ensures Touched(rest, atLineStart, p) == Touched(later, ls, p - 1) {
      assert later[p - 1..] == rest[p..];
    }
    forall p | 0 <= p < |later| ensures Touched(later, ls, p) == Touched(rest, atLineStart, p + 1) {
      assert later[p..] == rest[p + 1..];
    }
  }

  lemma RoundTouched(rest: seq<Byte>, atLineStart: bool)
    requires rest != [] && !IsBullet(rest, atLineStart)
    ensures var (e, k) := Round(rest, atLineStart);
            && e != BULLET
            && (Touched(rest, atLineStart, 0) ==> |e| < k)
            && (!Touched(rest, atLineStart, 0) ==> (e, k) == ([rest[0]], 1))
  {
    assert rest[0..] == rest;
    hide Hashes;
  }

  lemma {:induction false} LengthWithoutBullets(rest: seq<Byte>, atLineStart: bool, room: nat)
    requires NoBullets(rest, atLineStart)
    ensures |Inline(rest, atLineStart, room)| <= |rest|
    ensures |Inline(rest, atLineStart, room)| == |rest| <==> |rest| <= room && Untouched(rest, atLineStart)
    decreases |rest|
  {
    NothingComesOfNothing(rest, atLineStart, room);
    hide Round, Inline, NoBullets, Touched, Untouched;
    if rest == [] {
      EmptyIsUntouched(atLineStart);
    } else if room > 0 {
      var (e, k) := Round(rest, atLineStart);
      NoBulletHere(rest, atLineStart);
      RoundTouched(rest, atLineStart);
      TouchedFurtherOn(rest, atLineStart);
      NoBulletsFurtherOn(rest, atLineStart, k);
      RoomyOrNot(rest, atLineStart, room, e, k);
      LengthWithoutBullets(rest[k..], rest[k - 1] == LF, room - |e|);
    }
  }

  lemma EmptyIsUntouched(atLineStart: bool)
    ensures Untouched([], atLineStart) && forall room: nat :: Inline([], atLineStart, room) == []
  {
  }

  lemma {:induction false} UntouchedIsClean(rest: seq<Byte>, atLineStart: bool)
    requires NoBullets(rest, atLineStart) && Untouched(rest, atLineStart)
    ensures Clean(rest, atLineStart) == rest
    decreases |rest|
  {
    if rest != [] {
      NoBulletHere(rest, atLineStart);
      RoundTouched(rest, atLineStart);
      TouchedFurtherOn(rest, atLineStart);
      NoBulletsFurtherOn(rest, atLineStart, 1);
      CleanCopies(rest, atLineStart);
      UntouchedIsClean(rest[1..], rest[0] == LF);
    }
    hide Round, Touched, NoBullets, Clean;
  }

  /** Without bullets the ellipsis comes if and only if the text was cut or something in it
      was removed or folded. */
  lemma EllipsisWithoutBullets(t: seq<Byte>, cap: nat)
    requires cap >= 8 && NoBullets(t, true)
    ensures HasEllipsis(t, cap) <==> |t| > cap - 4 || !Untouched(t, true)
    ensures HasEllipsis(t, cap) <==> Cut(t, cap) || !Untouched(t, true)
    ensures (HasEllipsis(t, cap) <==> Cut(t, cap)) <==> Cut(t, cap) || Untouched(t, true)
  {
    LengthWithoutBullets(t, true, cap - 4);
    CutIffTooLong(t, cap);
    if Untouched(t, true) { UntouchedIsClean(t, true); }
    hide Cut, Untouched, NoBullets, Clean, Inline, Round;
    assert |Inline(t, true, cap - 4) + ELLIPSIS| != |Inline(t, true, cap - 4)|;
  }

  // -------------------------------------------------------------------- on one buffer

  /** Captions are made on one buffer: they come out as on two if and only if no bullet does
      harm and no ellipsis is due, for on one buffer none ever comes. */
  lemma CaptionInPlaceIff(t: seq<Byte>, cap: nat)
    requires cap >= 8
    ensures Captioned(true, t, cap) == InPlace(t, true, 0, cap - 4)
    ensures Captioned(true, t, cap) == Captioned(false, t, cap) <==>
              && Harmless(FirstOvertaking(t, true, 0, cap - 4))
              && Dropped(t, true, cap - 4) <= 2 * Bullets(t, true, cap - 4)
  {
    var mine, theirs := InPlace(t, true, 0, cap - 4), Inline(t, true, cap - 4);
    EllipsisIffMoreDropped(t, cap);
    InPlaceIsRightIff(t, true, 0, cap - 4);
    assert FirstOvertaking(t, true, 0, cap - 4).Never? ==> mine == theirs;
    if FirstOvertaking(t, true, 0, cap - 4).After? { InPlaceEndsInSmear(t, true, 0, cap - 4); }
    hide Dropped, Bullets, Inline, InPlace, FirstOvertaking, Harmless;
    assert (theirs + ELLIPSIS)[|theirs| + 2] == 0xA6;
  }

  /** Without bullets: if and only if the text fits and nothing in it is removed or folded. */
  lemma CaptionInPlaceWithoutBullets(t: seq<Byte>, cap: nat)
    requires cap >= 8 && NoBullets(t, true)
    ensures Captioned(true, t, cap) == Inline(t, true, cap - 4)
    ensures Captioned(true, t, cap) == Captioned(false, t, cap) <==> |t| <= cap - 4 && Untouched(t, true)
  {
    NoBulletNoOvertaking(t, true, 0, cap - 4);
    InPlaceIsRightIff(t, true, 0, cap - 4);
    assert Right(t, true, 0, cap - 4);
    EllipsisWithoutBullets(t, cap);
    hide Untouched, NoBullets, Cut, InPlace, Inline, FirstOvertaking;
  }

  // ----------------------------------------------------------------- the three surprises

  lemma CopyStep(c: Byte, s: seq<Byte>, room: nat)
    requires c !in {HASH, DASH, STAR, UNDERSCORE, 0xE2} && room > 0
    ensures Inline([c] + s, false, room) == [c] + Inline(s, c == LF, room - 1)
    ensures Clean([c] + s, false) == [c] + Clean(s, c == LF)
  {
    var all := [c] + s;
    assert all[1..] == s;
    RoundCopies(all, false);
    hide Round, Inline, Clean;
    RoomyOrNot(all, false, room, [c], 1);
    CleanUnrolls(all, false);
  }

  lemma BulletStep(s: seq<Byte>, room: nat)
    requires room >= 4
    ensures Inline([DASH, SPACE] + s, true, room) == BULLET + Inline(s, false, room - 4)
    ensures Clean([DASH, SPACE] + s, true) == BULLET + Clean(s, false)
  {
    var all := [DASH, SPACE] + s;
    assert all[2..] == s && all[1] == SPACE;
    assert Round(all, true) == (BULLET, 2);
    hide Round, Inline, Clean;
    RoomyOrNot(all, true, room, BULLET, 2);
    CleanUnrolls(all, true);
  }

  lemma MarkStep(s: seq<Byte>, room: nat)
    requires room > 0 && s != [] && s[0] != STAR && s[0] != SPACE
    ensures Inline([STAR] + s, true, room) == Inline(s, false, room)
  {
    var all := [STAR] + s;
    assert all[1..] == s && all[1] == s[0];
    assert Round(all, true) == ([], 1);
    hide Round, Inline;
    RoomyOrNot(all, true, room, [], 1);
  }

  const BULLETS: seq<Byte> := [DASH, SPACE] + ([LF] + ([DASH, SPACE] + ([LF] + ([DASH, SPACE] + []))))

  /** "- \n- \n- " in a buffer of 14 bytes loses its last line, and no ellipsis says so. */
  lemma CutWithoutEllipsis()
    ensures Cut(BULLETS, 14) && !HasEllipsis(BULLETS, 14)
  {
    hide Round, Inline, Clean, Cut;
    var last: seq<Byte> := [DASH, SPACE] + [];
    var next := [DASH, SPACE] + ([LF] + last);
    BulletStep([LF] + next, 10);
    CopyStep(LF, next, 6);
    BulletStep([LF] + last, 5);
    CopyStep(LF, last, 1);
    BulletStep([], 4);
    NothingComesOfNothing(last, true, 0);
    CutIffTooLong(BULLETS, 14);
    assert |Inline(BULLETS, true, 10)| == 10;
  }

  /** "*a" is not cut in a buffer of 8 bytes, and an ellipsis says that it was. */
  lemma EllipsisWithoutCut()
    ensures !Cut([STAR, 0x61], 8) && HasEllipsis([STAR, 0x61], 8)
  {
    var t: seq<Byte> := [STAR, 0x61];
    CutIffTooLong(t, 8);
    CleanIsBounded(t, true);
    assert NoBullets(t, true) by {
      assert t[0..] == t && t[1..] == [0x61];
    }
    assert Touched(t, true, 0);
    EllipsisWithoutBullets(t, 8);
    hide Clean, Inline, Cut;
  }

  const MARK_AND_BULLET: seq<Byte> := [STAR] + ([0x61] + ([LF] + ([DASH, SPACE] + ([0x62] + []))))

  /** "*a\n- b" loses a mark, but a bullet makes up for it: no ellipsis. */
  lemma MarkWithoutEllipsis()
    ensures Touched(MARK_AND_BULLET, true, 0) && !HasEllipsis(MARK_AND_BULLET, 64)
  {
    hide Round, Inline, IsHeading, IsFolded;
    var item := [DASH, SPACE] + ([0x62] + []);
    MarkStep([0x61] + ([LF] + item), 60);
    CopyStep(0x61, [LF] + item, 60);
    CopyStep(LF, item, 59);
    BulletStep([0x62] + [], 58);
    CopyStep(0x62, [], 54);
    assert |Inline(MARK_AND_BULLET, true, 60)| >= 7;
  }
}
