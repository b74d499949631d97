// md_strip_inline of main/md_strip.c on one buffer, as main/md_strip.h promises it can be
// called and main/ui_voice.c calls it: what comes out, and exactly when that is right.
//
// A bullet takes two bytes and writes four.  Once the writing has overtaken the reading
// the loop reads what it has just written, and copies that to the end.

module InlineInPlace {
  import opened Basics
  import opened CString
  import opened InlineText

  // ---------------------------------------------------------------- the specification

  /** What the loop writes once it is `gap` bytes ahead: the end of its last bullet, over and over. */
  function Smear(gap: nat, m: nat): (r: seq<Byte>)
    ensures |r| == m
  {
    seq(m, j requires 0 <= j < m => if gap == 2 && j % 2 == 0 then 0xA2 else SPACE)
  }

  predicate IsSmear(s: seq<Byte>) {
    forall j :: 0 <= j < |s| ==> s[j] == 0xA2 || s[j] == SPACE
  }

  /** What comes out of `rest` when the writing is `lag` bytes behind the reading. */
  function InPlace(rest: seq<Byte>, atLineStart: bool, lag: nat, room: nat): (r: seq<Byte>)
    ensures |r| <= room
    decreases |rest|
  {
    if rest == [] || room == 0 then []
    else
      var (e, k) := Round(rest, atLineStart);
      if |e| > room then InPlace(rest[k..], rest[k - 1] == LF, lag + k, room)
      else if |e| <= lag + k then e + InPlace(rest[k..], rest[k - 1] == LF, lag + k - |e|, room - |e|)
      else e + Smear(|e| - k - lag, Min(|rest| - k, room - |e|))
  }

  /** The first bullet to overtake: the text and the room left after it, and how far ahead it is. */
  datatype Overtaking = Never | After(rest: seq<Byte>, gap: nat, left: nat)

  function FirstOvertaking(rest: seq<Byte>, atLineStart: bool, lag: nat, room: nat): (o: Overtaking)
    ensures o.After? ==> o.rest != [] && 0 < o.left
    decreases |rest|
  {
    if rest == [] || room == 0 then Never
    else
      var (e, k) := Round(rest, atLineStart);
      if |e| > room then FirstOvertaking(rest[k..], rest[k - 1] == LF, lag + k, room)
      else if |e| <= lag + k then FirstOvertaking(rest[k..], rest[k - 1] == LF, lag + k - |e|, room - |e|)
      else if |rest| == k || |e| == room then Never
      else After(rest[k..], |e| - k - lag, room - |e|)
  }

  function Unmarked(s: seq<Byte>): (r: seq<Byte>)
    ensures |r| <= |s|
  {
    if s == [] then [] else (if s[0] == STAR || s[0] == UNDERSCORE then [] else [s[0]]) + Unmarked(s[1..])
  }

  /** Overtaking does no harm: it does not happen, or the text it destroys reads, its marks
      apart, just like what is put there. */
  predicate Harmless(o: Overtaking) {
    o.After? ==> Smear(o.gap, Min(|o.rest|, o.left)) <= Unmarked(o.rest)
  }

  // ------------------------------------------------------------------- the one buffer

  /** From i on the buffer still holds the text. */
  ghost predicate HoldsFrom(buf: seq<Byte>, t: seq<Byte>, i: nat) {
    i <= |t| <= |buf| && buf[i..|t|] == t[i..] && LineStart(buf, i) == LineStart(t, i)
  }

  /** What comes out from position i on. */
  function Outcome(t: seq<Byte>, i: nat, lag: nat, room: nat): seq<Byte>
    requires i <= |t|
  {
    InPlace(t[i..], LineStart(t, i), lag, room)
  }

  /** oi bytes of the result are in the buffer, the rest is to come from position i on. */
  ghost predicate Owed(buf: seq<Byte>, all: seq<Byte>, oi: nat, t: seq<Byte>, i: nat, cap: nat) {
    oi <= i <= |t| && oi < cap <= |buf| && all == buf[..oi] + Outcome(t, i, i - oi, cap - 1 - oi)
  }

  /** The writing is behind the reading. */
  ghost predicate Following(buf: seq<Byte>, all: seq<Byte>, oi: nat, t: seq<Byte>, i: nat, cap: nat) {
    HoldsFrom(buf, t, i) && Owed(buf, all, oi, t, i, cap)
  }

  /** The writing is ahead: the loop reads what it has written, `oi - i` bytes ago. */
  ghost predicate Ahead(buf: seq<Byte>, all: seq<Byte>, oi: nat, n: nat, i: nat, cap: nat) {
    && 0 < i < oi && i <= n <= |buf| && oi < cap <= |buf|
    && |all| == oi + Min(n - i, cap - 1 - oi)
    && buf[..oi] == all[..oi] && buf[i - 1] != LF
    && (forall x :: i <= x < |all| ==> all[x] == 0xA2 || all[x] == SPACE)
    && (forall x :: oi <= x < |all| ==> all[x] == all[x - (oi - i)])
  }

  ghost predicate Emitting(buf: seq<Byte>, all: seq<Byte>, oi: nat, t: seq<Byte>, i: nat, cap: nat) {
    Following(buf, all, oi, t, i, cap) || Ahead(buf, all, oi, |t|, i, cap)
  }

  lemma EmittingStarts(buf: seq<Byte>, t: seq<Byte>, cap: nat)
    requires t <= buf && 0 < cap <= |buf|
    ensures Emitting(buf, InPlace(t, true, 0, cap - 1), 0, t, 0, cap)
  {
    assert buf[0..|t|] == t[0..] == t;
  }

  lemma EmittingEnds(buf: seq<Byte>, all: seq<Byte>, oi: nat, t: seq<Byte>, i: nat, cap: nat)
    requires Emitting(buf, all, oi, t, i, cap)
    ensures i <= |t| <= |buf| && oi < cap <= |buf|
    ensures i == |t| || oi + 1 == cap ==> buf[..oi] == all
  {
  }

  /** What a round finds in the buffer, and what it makes of it. */
  function BufRound(buf: seq<Byte>, n: nat, i: nat): (r: (seq<Byte>, nat))
    requires i < n <= |buf|
    ensures 1 <= r.1 <= n - i
  {
    Round(buf[i..n], LineStart(buf, i))
  }

  ghost predicate EmittingAfter(
      buf: seq<Byte>, e: seq<Byte>, k: nat, all: seq<Byte>, oi: nat, t: seq<Byte>, i: nat, cap: nat)
  {
    if oi + |e| < cap <= |buf| then Emitting(Overwrite(buf, oi, e), all, oi + |e|, t, i + k, cap)
    else Emitting(buf, all, oi, t, i + k, cap)
  }

  lemma AheadRound(buf: seq<Byte>, all: seq<Byte>, oi: nat, t: seq<Byte>, i: nat, cap: nat)
    requires Ahead(buf, all, oi, |t|, i, cap) && i < |t| && oi + 1 < cap
    ensures var (e, k) := BufRound(buf, |t|, i); EmittingAfter(buf, e, k, all, oi, t, i, cap)
  {
    assert buf[i] == all[i];
    var rest := buf[i..|t|];
    assert rest[0] == buf[i];
    RoundCopies(rest, false);
    assert BufRound(buf, |t|, i) == ([buf[i]], 1);
    var buf' := Overwrite(buf, oi, [buf[i]]);
    assert buf'[..oi + 1] == buf[..oi] + [buf[i]];
    assert all[..oi + 1] == all[..oi] + [all[oi]];
    assert buf'[i] == buf[i];
    assert Ahead(buf', all, oi + 1, |t|, i + 1, cap);
  }

  /** A round that writes ends a line exactly when what it has read does. */
  lemma RoundEnds(rest: seq<Byte>, atLineStart: bool)
    requires rest != []
    ensures var (e, k) := Round(rest, atLineStart);
            && (e == BULLET ==> k == 2 && rest[1] == SPACE)
            && (e != [] ==> (e[|e| - 1] == LF <==> rest[k - 1] == LF))
  {
  }

  /** Writing no further than what has been read leaves the rest of the text, and its line start, as they were. */
  lemma RestStays(buf: seq<Byte>, e: seq<Byte>, k: nat, oi: nat, t: seq<Byte>, i: nat)
    requires i < |t| <= |buf| && buf[i..|t|] == t[i..] && oi <= i && oi + |e| <= i + k <= |t| && k > 0
    requires e != [] ==> (e[|e| - 1] == LF <==> t[i + k - 1] == LF)
    ensures Overwrite(buf, oi, e)[i + k..|t|] == t[i + k..]
    ensures LineStart(Overwrite(buf, oi, e), i + k) == LineStart(t, i + k)
  {
    var buf' := Overwrite(buf, oi, e);
    forall x | oi + |e| <= x < |t| ensures buf'[x] == buf[x] {}
    forall x | i <= x < |t| ensures buf[x] == t[x] {
      assert buf[x] == buf[i..|t|][x - i] == t[i..][x - i];
    }
    if oi + |e| == i + k {
      assert e != [];
      assert buf'[i + k - 1] == e[|e| - 1];
    }
  }

  lemma InPlaceUnrolls(rest: seq<Byte>, atLineStart: bool, lag: nat, room: nat, e: seq<Byte>, k: nat)
    requires rest != [] && room > 0 && (e, k) == Round(rest, atLineStart)
    ensures InPlace(rest, atLineStart, lag, room) ==
              if |e| > room then InPlace(rest[k..], rest[k - 1] == LF, lag + k, room)
              else if |e| <= lag + k then e + InPlace(rest[k..], rest[k - 1] == LF, lag + k - |e|, room - |e|)
              else e + Smear(|e| - k - lag, Min(|rest| - k, room - |e|))
  {
    hide Round, Smear;
  }

  /** The rest of the text after k bytes more. */
  lemma RestOf(t: seq<Byte>, i: nat, k: nat)
    requires 0 < k && i + k <= |t|
    ensures t[i..][k..] == t[i + k..] && t[i..][k - 1] == t[i + k - 1] && (t[i..][k - 1] == LF) == LineStart(t, i + k)
  {
  }

  lemma OutcomeUnrolls(t: seq<Byte>, i: nat, lag: nat, room: nat, e: seq<Byte>, k: nat)
    requires i < |t| && room > 0 && (e, k) == Round(t[i..], LineStart(t, i))
    ensures i + k <= |t|
    ensures Outcome(t, i, lag, room) ==
              if |e| > room then Outcome(t, i + k, lag + k, room)
              else if |e| <= lag + k then e + Outcome(t, i + k, lag + k - |e|, room - |e|)
              else e + Smear(|e| - k - lag, Min(|t| - i - k, room - |e|))
  {
    RestOf(t, i, k);
    InPlaceUnrolls(t[i..], LineStart(t, i), lag, room, e, k);
    hide Round, InPlace, LineStart, Smear;
  }

  lemma OwedAfterWrite(
      buf: seq<Byte>, e: seq<Byte>, k: nat, all: seq<Byte>, oi: nat, t: seq<Byte>, i: nat, cap: nat)
    requires Owed(buf, all, oi, t, i, cap) && i < |t| && oi + 1 < cap
    requires (e, k) == Round(t[i..], LineStart(t, i)) && oi + |e| < cap && oi + |e| <= i + k
    ensures Owed(Overwrite(buf, oi, e), all, oi + |e|, t, i + k, cap)
  {
    hide Round, Outcome, LineStart, Overwrite, Smear;
    OutcomeUnrolls(t, i, i - oi, cap - 1 - oi, e, k);
    HeadGrows(buf, oi, e, Outcome(t, i + k, i + k - oi - |e|, cap - 1 - oi - |e|));
  }

  lemma FollowingWrites(
      buf: seq<Byte>, e: seq<Byte>, k: nat, all: seq<Byte>, oi: nat, t: seq<Byte>, i: nat, cap: nat)
    requires Following(buf, all, oi, t, i, cap) && i < |t| && oi + 1 < cap
    requires (e, k) == Round(t[i..], LineStart(t, i)) && oi + |e| < cap && oi + |e| <= i + k
    ensures Following(Overwrite(buf, oi, e), all, oi + |e|, t, i + k, cap)
  {
    RoundEnds(t[i..], LineStart(t, i));
    RestOf(t, i, k);
    OwedAfterWrite(buf, e, k, all, oi, t, i, cap);
    RestStays(buf, e, k, oi, t, i);
    hide Round, Owed, Overwrite, LineStart;
  }

  lemma HeadGrows(buf: seq<Byte>, oi: nat, e: seq<Byte>, rest: seq<Byte>)
    requires oi + |e| <= |buf|
    ensures |Overwrite(buf, oi, e)| == |buf|
    ensures buf[..oi] + (e + rest) == Overwrite(buf, oi, e)[..oi + |e|] + rest
  {
    assert Overwrite(buf, oi, e)[..oi + |e|] == buf[..oi] + e;
  }

  lemma FollowingSkips(
      buf: seq<Byte>, e: seq<Byte>, k: nat, all: seq<Byte>, oi: nat, t: seq<Byte>, i: nat, cap: nat)
    requires Following(buf, all, oi, t, i, cap) && i < |t| && oi + 1 < cap
    requires (e, k) == Round(t[i..], LineStart(t, i)) && oi + |e| >= cap
    ensures Following(buf, all, oi, t, i + k, cap)
  {
    RestOf(t, i, k);
    RestOf(buf[..|t|], i, k);
    OutcomeUnrolls(t, i, i - oi, cap - 1 - oi, e, k);
    hide Round, Outcome;
  }

  lemma FollowingOvertakes(
      buf: seq<Byte>, e: seq<Byte>, k: nat, all: seq<Byte>, oi: nat, t: seq<Byte>, i: nat, cap: nat)
    requires Following(buf, all, oi, t, i, cap) && i < |t| && oi + 1 < cap
    requires (e, k) == Round(t[i..], LineStart(t, i)) && oi + |e| < cap && oi + |e| > i + k
    ensures e == BULLET && k == 2 && oi + 2 >= i + 1
    ensures Ahead(Overwrite(buf, oi, e), all, oi + 4, |t|, i + 2, cap)
  {
    hide Round, Outcome, LineStart, Smear, Min;
    RoundEnds(t[i..], LineStart(t, i));
    assert e == BULLET && k == 2;
    OutcomeUnrolls(t, i, i - oi, cap - 1 - oi, e, k);
    HeadGrows(buf, oi, e, Smear(oi + 2 - i, Min(|t| - (i + 2), cap - 1 - oi - 4)));
    BulletWritten(buf, oi, e);
    hide Overwrite;
    SmearGoesOn(Overwrite(buf, oi, e), all, oi, |t|, i, cap, oi + 2 - i);
  }

  lemma BulletWritten(buf: seq<Byte>, oi: nat, e: seq<Byte>)
    requires oi + |e| <= |buf|
    ensures |Overwrite(buf, oi, e)| == |buf| && Overwrite(buf, oi, e)[oi..oi + |e|] == e
  {
  }

  lemma SmearGoesOn(buf: seq<Byte>, all: seq<Byte>, oi: nat, n: nat, i: nat, cap: nat, gap: nat)
    requires gap == oi + 2 - i && 1 <= gap <= 2 && i + 2 <= n <= |buf| && oi + 4 < cap <= |buf|
    requires buf[oi..oi + 4] == BULLET
    requires all == buf[..oi + 4] + Smear(gap, Min(n - (i + 2), cap - 1 - oi - 4))
    ensures Ahead(buf, all, oi + 4, n, i + 2, cap)
  {
    var m := Min(n - (i + 2), cap - 1 - oi - 4);
    BulletBytes(buf, oi);
    forall x | 0 <= x < |all| ensures all[x] == if x < oi + 4 then buf[x] else Smear(gap, m)[x - oi - 4] {}
    SmearBytes(gap, m);
    hide Smear, Min;
    assert buf[..oi + 4] == all[..oi + 4];
  }

  lemma BulletBytes(buf: seq<Byte>, oi: nat)
    requires oi + 4 <= |buf| && buf[oi..oi + 4] == BULLET
    ensures buf[oi] == 0xE2 && buf[oi + 1] == 0x80 && buf[oi + 2] == 0xA2 && buf[oi + 3] == SPACE
  {
    var b := buf[oi..oi + 4];
    assert b[0] == buf[oi] && b[1] == buf[oi + 1] && b[2] == buf[oi + 2] && b[3] == buf[oi + 3];
  }

  lemma SmearBytes(gap: nat, m: nat)
    requires 1 <= gap <= 2
    ensures IsSmear(Smear(gap, m))
    ensures forall j :: 0 <= j < m && j < gap ==> Smear(gap, m)[j] == if gap == 2 && j == 0 then 0xA2 else SPACE
    ensures forall j :: gap <= j < m ==> Smear(gap, m)[j] == Smear(gap, m)[j - gap]
  {
  }

  lemma EmittingRound(buf: seq<Byte>, all: seq<Byte>, oi: nat, t: seq<Byte>, i: nat, cap: nat)
    requires Emitting(buf, all, oi, t, i, cap) && i < |t| && oi + 1 < cap
    ensures |t| <= |buf| && cap <= |buf|
    ensures var (e, k) := BufRound(buf, |t|, i); EmittingAfter(buf, e, k, all, oi, t, i, cap)
  {
    if Ahead(buf, all, oi, |t|, i, cap) {
      AheadRound(buf, all, oi, t, i, cap);
    } else {
      FollowingRound(buf, all, oi, t, i, cap);
    }
  }

  lemma FollowingRound(buf: seq<Byte>, all: seq<Byte>, oi: nat, t: seq<Byte>, i: nat, cap: nat)
    requires Following(buf, all, oi, t, i, cap) && i < |t| && oi + 1 < cap
    ensures |t| <= |buf| && cap <= |buf|
    ensures var (e, k) := BufRound(buf, |t|, i); EmittingAfter(buf, e, k, all, oi, t, i, cap)
  {
    var (e, k) := Round(t[i..], LineStart(t, i));
    assert BufRound(buf, |t|, i) == (e, k);
    hide Round, InPlace, BufRound, Following, Ahead;
    if oi + |e| >= cap {
      FollowingSkips(buf, e, k, all, oi, t, i, cap);
    } else if oi + |e| <= i + k {
      FollowingWrites(buf, e, k, all, oi, t, i, cap);
    } else {
      FollowingOvertakes(buf, e, k, all, oi, t, i, cap);
    }
  }

  // ---------------------------------------------------------- exactly when it is right

  lemma InlineOfMark(u: seq<Byte>, left: nat) returns (k: nat)
    requires u != [] && (u[0] == STAR || u[0] == UNDERSCORE) && left > 0
    ensures 0 < k <= |u| && Inline(u, false, left) == Inline(u[k..], false, left) && Unmarked(u) == Unmarked(u[k..])
  {
    var (e, n) := Round(u, false);
    k := n;
    assert e == [] && u[k - 1] == u[0];
    if k == 2 { assert u[1..][1..] == u[2..]; }
    InlineUnrolls(u, false, left);
    hide Round, Inline;
  }

  lemma InlineOfCopy(u: seq<Byte>, left: nat)
    requires u != [] && (u[0] == 0xA2 || u[0] == SPACE) && left > 0
    ensures Inline(u, false, left) == [u[0]] + Inline(u[1..], false, left - 1)
    ensures Unmarked(u) == [u[0]] + Unmarked(u[1..])
  {
    RoundCopies(u, false);
    InlineUnrolls(u, false, left);
    hide Round, Inline;
  }

  lemma {:induction false} PatternIsInline(p: seq<Byte>, u: seq<Byte>, left: nat)
    requires IsSmear(p)
    ensures p <= Inline(u, false, left) <==> |p| <= left && p <= Unmarked(u)
    decreases |u|
  {
    if p == [] || u == [] || left == 0 {
    } else if u[0] == STAR || u[0] == UNDERSCORE {
      var k := InlineOfMark(u, left);
      PatternIsInline(p, u[k..], left);
    } else if p[0] == u[0] {
      InlineOfCopy(u, left);
      PatternIsInline(p[1..], u[1..], left - 1);
      PrefixCons(p, Inline(u, false, left), Inline(u[1..], false, left - 1));
      PrefixCons(p, Unmarked(u), Unmarked(u[1..]));
    } else {
      assert Unmarked(u)[0] == u[0];
      OtherByte(p[0], u, left);
    }
    hide Inline, Unmarked, Round;
  }

  lemma PrefixCons(p: seq<Byte>, s: seq<Byte>, rest: seq<Byte>)
    requires p != [] && s == [p[0]] + rest
    ensures p <= s <==> p[1..] <= rest
  {
    assert p == [p[0]] + p[1..];
    if p <= s { assert p[1..] == s[1..|p|] == rest[..|p| - 1]; }
  }

  lemma OtherByte(b: Byte, u: seq<Byte>, left: nat)
    requires u != [] && left > 0 && (b == 0xA2 || b == SPACE) && u[0] != b && u[0] != STAR && u[0] != UNDERSCORE
    ensures Inline(u, false, left) == [] || Inline(u, false, left)[0] != b
  {
    hide Hashes;
  }

  /** On the text that follows an overtaking bullet. */
  lemma SmearIsInline(gap: nat, u: seq<Byte>, left: nat)
    requires u != [] && left > 0
    ensures var p := Smear(gap, Min(|u|, left)); Inline(u, false, left) == p <==> p <= Unmarked(u)
  {
    var p := Smear(gap, Min(|u|, left));
    PatternIsInline(p, u, left);
    if p <= Unmarked(u) && |p| < left {
      assert |Unmarked(u)| == |u|;
      NothingUnmarked(u);
      CopiedWhole(u, left);
    }
  }

  lemma {:induction false} NothingUnmarked(u: seq<Byte>)
    requires |Unmarked(u)| == |u|
    ensures Unmarked(u) == u
  {
    if u != [] { NothingUnmarked(u[1..]); }
  }

  lemma {:induction false} CopiedWhole(u: seq<Byte>, left: nat)
    requires |u| <= left && IsSmear(u)
    ensures Inline(u, false, left) == u
    decreases |u|
  {
    NothingComesOfNothing(u, false, left);
    hide Inline;
    if u != [] {
      InlineOfCopy(u, left);
      CopiedWhole(u[1..], left - 1);
      assert [u[0]] + u[1..] == u;
    }
  }

  /** One buffer gives what two give. */
  predicate Right(rest: seq<Byte>, atLineStart: bool, lag: nat, room: nat) {
    InPlace(rest, atLineStart, lag, room) == Inline(rest, atLineStart, room)
  }

  lemma RoomyOrNot(rest: seq<Byte>, atLineStart: bool, room: nat, e: seq<Byte>, k: nat)
    requires rest != [] && room > 0 && (e, k) == Round(rest, atLineStart)
    ensures Inline(rest, atLineStart, room) ==
              if |e| > room then Inline(rest[k..], rest[k - 1] == LF, room)
              else e + Inline(rest[k..], rest[k - 1] == LF, room - |e|)
  {
    hide Round;
  }

  lemma RightUnrolls(rest: seq<Byte>, atLineStart: bool, lag: nat, room: nat, e: seq<Byte>, k: nat)
    requires rest != [] && room > 0 && (e, k) == Round(rest, atLineStart)
    ensures |e| > room ==> Right(rest, atLineStart, lag, room) == Right(rest[k..], rest[k - 1] == LF, lag + k, room)
    ensures |e| <= room && |e| <= lag + k ==>
              Right(rest, atLineStart, lag, room) == Right(rest[k..], rest[k - 1] == LF, lag + k - |e|, room - |e|)
  {
    RoomyOrNot(rest, atLineStart, room, e, k);
    InPlaceUnrolls(rest, atLineStart, lag, room, e, k);
    hide Round, Inline, InPlace;
    if |e| <= room && |e| <= lag + k {
      var ls := rest[k - 1] == LF;
      SameHead(e, InPlace(rest[k..], ls, lag + k - |e|, room - |e|), Inline(rest[k..], ls, room - |e|));
    }
  }

  lemma RightOvertakes(rest: seq<Byte>, atLineStart: bool, lag: nat, room: nat, e: seq<Byte>, k: nat)
    requires rest != [] && (e, k) == Round(rest, atLineStart) && lag + k < |e| <= room
    ensures Right(rest, atLineStart, lag, room) <==>
              (|rest| > k && |e| < room ==> Harmless(After(rest[k..], |e| - k - lag, room - |e|)))
  {
    RoomyOrNot(rest, atLineStart, room, e, k);
    InPlaceUnrolls(rest, atLineStart, lag, room, e, k);
    RoundEnds(rest, atLineStart);
    assert e == BULLET && rest[k - 1] == SPACE;
    hide Round, Inline, InPlace, Smear, Unmarked;
    SameHead(e, Smear(|e| - k - lag, Min(|rest| - k, room - |e|)), Inline(rest[k..], false, room - |e|));
    NothingComesOfNothing(rest[k..], false, room - |e|);
    if |rest| > k && |e| < room { SmearIsInline(|e| - k - lag, rest[k..], room - |e|); }
  }

  lemma NothingComesOfNothing(u: seq<Byte>, atLineStart: bool, left: nat)
    ensures u == [] || left == 0 ==> Inline(u, atLineStart, left) == []
  {
  }

  lemma OvertakingUnrolls(rest: seq<Byte>, atLineStart: bool, lag: nat, room: nat, e: seq<Byte>, k: nat)
    requires rest != [] && room > 0 && (e, k) == Round(rest, atLineStart)
    ensures FirstOvertaking(rest, atLineStart, lag, room) ==
              if |e| > room then FirstOvertaking(rest[k..], rest[k - 1] == LF, lag + k, room)
              else if |e| <= lag + k then FirstOvertaking(rest[k..], rest[k - 1] == LF, lag + k - |e|, room - |e|)
              else if |rest| == k || |e| == room then Never
              else After(rest[k..], |e| - k - lag, room - |e|)
  {
    hide Round;
  }

  lemma NothingLeft(rest: seq<Byte>, atLineStart: bool, lag: nat, room: nat)
    ensures Harmless(Never)
    ensures rest == [] || room == 0 ==> Right(rest, atLineStart, lag, room)
    ensures rest == [] || room == 0 ==> FirstOvertaking(rest, atLineStart, lag, room) == Never
  {
  }

  /** One buffer gives what two give if and only if no bullet overtakes, or the first to do so does no harm. */
  lemma {:induction false} InPlaceIsRightIff(rest: seq<Byte>, atLineStart: bool, lag: nat, room: nat)
    ensures Right(rest, atLineStart, lag, room) <==> Harmless(FirstOvertaking(rest, atLineStart, lag, room))
    decreases |rest|
  {
    NothingLeft(rest, atLineStart, lag, room);
    hide *;
    if rest != [] && room > 0 {
      var (e, k) := Round(rest, atLineStart);
      OvertakingUnrolls(rest, atLineStart, lag, room, e, k);
      if lag + k < |e| <= room {
        RightOvertakes(rest, atLineStart, lag, room, e, k);
      } else {
        RightUnrolls(rest, atLineStart, lag, room, e, k);
        if |e| > room {
          InPlaceIsRightIff(rest[k..], rest[k - 1] == LF, lag + k, room);
        } else {
          InPlaceIsRightIff(rest[k..], rest[k - 1] == LF, lag + k - |e|, room - |e|);
        }
      }
    }
  }

  lemma SameHead(e: seq<Byte>, a: seq<Byte>, b: seq<Byte>)
    ensures e + a == e + b <==> a == b
  {
    if e + a == e + b { assert a == (e + a)[|e|..] == (e + b)[|e|..] == b; }
  }

  // ------------------------------------------------------------- read off the text

  predicate BulletAt(rest: seq<Byte>, atLineStart: bool, p: nat)
    requires p < |rest|
  {
    IsBullet(rest[p..], LineStartAt(rest, atLineStart, p))
  }

  predicate NoBullets(rest: seq<Byte>, atLineStart: bool) {
    forall p :: 0 <= p < |rest| ==> !BulletAt(rest, atLineStart, p)
  }

  lemma NoBulletsFurtherOn(rest: seq<Byte>, atLineStart: bool, k: nat)
    requires NoBullets(rest, atLineStart) && 0 < k <= |rest|
    ensures NoBullets(rest[k..], rest[k - 1] == LF)
  {
    var later, ls := rest[k..], rest[k - 1] == LF;
    forall p | 0 <= p < |later| ensures !BulletAt(later, ls, p) {
      assert !BulletAt(rest, atLineStart, k + p);
      assert later[p..] == rest[k + p..];
    }
  }

  lemma NoBulletHere(rest: seq<Byte>, atLineStart: bool)
    requires rest != [] && NoBullets(rest, atLineStart)
    ensures !IsBullet(rest, atLineStart) && Round(rest, atLineStart).0 != BULLET
  {
    assert !BulletAt(rest, atLineStart, 0);
    assert rest[0..] == rest;
  }

  /** Without a bullet nothing overtakes. */
  lemma {:induction false} NoBulletNoOvertaking(rest: seq<Byte>, atLineStart: bool, lag: nat, room: nat)
    requires NoBullets(rest, atLineStart)
    ensures FirstOvertaking(rest, atLineStart, lag, room) == Never
    decreases |rest|
  {
    hide Round, NoBullets;
    if rest != [] && room > 0 {
      var (e, k) := Round(rest, atLineStart);
      NoBulletHere(rest, atLineStart);
      NoBulletsFurtherOn(rest, atLineStart, k);
      NoBulletNoOvertaking(rest[k..], rest[k - 1] == LF, lag + k - |e|, room - |e|);
    }
  }

  /** What overtakes is a bullet, by one byte or two; `pos` is where the text after it starts. */
  lemma {:induction false} OvertakenByBullet(rest: seq<Byte>, atLineStart: bool, lag: nat, room: nat) returns (pos: nat)
    requires FirstOvertaking(rest, atLineStart, lag, room).After?
    ensures var o := FirstOvertaking(rest, atLineStart, lag, room);
            1 <= o.gap <= 2 && 0 < pos < |rest| && o.rest == rest[pos..] && rest[pos - 1] == SPACE
    decreases |rest|
  {
    NothingLeft(rest, atLineStart, lag, room);
    hide Round, FirstOvertaking;
    var (e, k) := Round(rest, atLineStart);
    OvertakingUnrolls(rest, atLineStart, lag, room, e, k);
    RoundEnds(rest, atLineStart);
    pos := k;
    if !(lag + k < |e| <= room) {
      var wrote := if |e| > room then 0 else |e|;
      pos := OvertakenByBullet(rest[k..], rest[k - 1] == LF, lag + k - wrote, room - wrote);
      assert rest[k..][pos..] == rest[k + pos..];
      pos := k + pos;
    }
  }

  lemma {:induction false} Utf8AfterAscii(s: seq<Byte>, p: nat)
    requires Utf8(s) && 0 < p <= |s| && s[p - 1] < 0x80
    ensures Utf8(s[p..])
    decreases |s|
  {
    var n := CharLen(s);
    if p > n {
      Utf8AfterAscii(s[n..], p - n);
      assert s[n..][p - n..] == s[p..];
    }
  }

  lemma {:induction false} UnmarkedStartsWhole(u: seq<Byte>)
    requires Utf8(u) && Unmarked(u) != []
    ensures !Tail(Unmarked(u)[0])
  {
    if u[0] == STAR || u[0] == UNDERSCORE { UnmarkedStartsWhole(u[1..]); }
  }

  /** On UTF-8 text, one buffer gives what two give if and only if no bullet overtakes, or
      the first to do so is one byte ahead and, marks apart, only blanks follow it that matter. */
  lemma InPlaceOnUtf8(t: seq<Byte>, room: nat)
    requires Utf8(t)
    ensures var o := FirstOvertaking(t, true, 0, room);
            Right(t, true, 0, room) <==>
              (o.After? ==> o.gap == 1 && Smear(1, Min(|o.rest|, o.left)) <= Unmarked(o.rest))
  {
    var o := FirstOvertaking(t, true, 0, room);
    InPlaceIsRightIff(t, true, 0, room);
    if o.After? {
      var pos := OvertakenByBullet(t, true, 0, room);
      Utf8AfterAscii(t, pos);
      TwoAheadHarms(o.rest, o.left);
    }
  }

  lemma TwoAheadHarms(u: seq<Byte>, left: nat)
    requires Utf8(u) && u != [] && left > 0
    ensures !Harmless(After(u, 2, left))
  {
    assert Smear(2, Min(|u|, left))[0] == 0xA2;
    if Unmarked(u) != [] { UnmarkedStartsWhole(u); }
  }

  /** A bullet in front, and text after it: all of that text is lost, and the result is not even UTF-8. */
  lemma BulletInFront(t: seq<Byte>, room: nat)
    requires IsBullet(t, true) && |t| > 2 && room > 4
    ensures InPlace(t, true, 0, room) == BULLET + Smear(2, Min(|t| - 2, room - 4))
    ensures !Utf8(InPlace(t, true, 0, room))
    ensures Utf8(t) ==> !Right(t, true, 0, room)
  {
    assert !IsHeading(t, true);
    assert Round(t, true) == (BULLET, 2);
    InPlaceUnrolls(t, true, 0, room, BULLET, 2);
    OvertakingUnrolls(t, true, 0, room, BULLET, 2);
    BulletThenTail(Smear(2, Min(|t| - 2, room - 4)));
    hide Round, InPlace, Smear, FirstOvertaking;
    if Utf8(t) { InPlaceOnUtf8(t, room); }
  }

  lemma BulletThenTail(s: seq<Byte>)
    requires s != [] && Tail(s[0])
    ensures !Utf8(BULLET + s)
  {
    var all := BULLET + s;
    assert CharLen(all) == 3;
    assert CharLen(all[3..]) == 1 && all[3..][1..] == s;
    assert CharLen(s) == 0 && !Utf8(s);
    assert !Utf8(all[3..]);
  }

  /** What has been overtaken ends in what the smear is made of. */
  lemma {:induction false} InPlaceEndsInSmear(rest: seq<Byte>, atLineStart: bool, lag: nat, room: nat)
    requires FirstOvertaking(rest, atLineStart, lag, room).After?
    ensures var r := InPlace(rest, atLineStart, lag, room); r != [] && (r[|r| - 1] == 0xA2 || r[|r| - 1] == SPACE)
    decreases |rest|
  {
    NothingLeft(rest, atLineStart, lag, room);
    hide Round, FirstOvertaking, InPlace;
    var (e, k) := Round(rest, atLineStart);
    OvertakingUnrolls(rest, atLineStart, lag, room, e, k);
    InPlaceUnrolls(rest, atLineStart, lag, room, e, k);
    if !(lag + k < |e| <= room) {
      var wrote := if |e| > room then 0 else |e|;
      InPlaceEndsInSmear(rest[k..], rest[k - 1] == LF, lag + k - wrote, room - wrote);
    }
  }

  lemma TwoLetters(room: nat)
    requires room >= 2
    ensures Inline([0x61, 0x62], false, room) == [0x61, 0x62]
  {
    var ab: seq<Byte>, b: seq<Byte> := [0x61, 0x62], [0x62];
    RoundCopies(ab, false);
    RoundCopies(b, false);
    RoomyOrNot(ab, false, room, [0x61], 1);
    RoomyOrNot(b, false, room - 1, [0x62], 1);
    assert ab[1..] == b && b[1..] == [];
    NothingComesOfNothing([], false, room - 2);
  }

  /** "- ab" in a buffer of 256 bytes comes out as a bullet and the end of that bullet again. */
  lemma InPlaceDestroys()
    ensures InPlace([DASH, SPACE, 0x61, 0x62], true, 0, 255) == BULLET + [0xA2, SPACE]
    ensures Inline([DASH, SPACE, 0x61, 0x62], true, 255) == BULLET + [0x61, 0x62]
  {
    var t: seq<Byte> := [DASH, SPACE, 0x61, 0x62];
    BulletInFront(t, 255);
    assert Smear(2, 2) == [0xA2, SPACE];
    assert t[2..] == [0x61, 0x62];
    assert Round(t, true) == (BULLET, 2);
    hide Round, Inline, InPlace, Smear;
    RoomyOrNot(t, true, 255, BULLET, 2);
    TwoLetters(251);
  }
}
