// The swipe of main/debug_server_input.c: what it publishes through the seqlock.

module TouchGesture {
  import opened TouchSeqlock

  /** Division as C has it: towards zero. */
  function TruncDiv(a: int, b: int): int
    requires b > 0
  {
    if a >= 0 then a / b else -(-a / b)
  }

  predicate Between(a: int, x: int, b: int) {
    a <= x <= b || b <= x <= a
  }

  lemma MulGrows(d: nat, i: nat, j: nat)
    requires i <= j
    ensures 0 <= d * i <= d * j
  {
    assert d * j == d * i + d * (j - i);
  }

  /** The share of d after i of `steps` equal parts. */
  function Share(d: nat, i: nat, steps: nat): nat
    requires steps > 0
  {
    d * i / steps
  }

  lemma ShareGrows(d: nat, i: nat, j: nat, steps: nat)
    requires i <= j <= steps && steps > 0
    ensures 0 <= Share(d, i, steps) <= Share(d, j, steps) <= d
  {
    MulGrows(d, i, j);
    QuotientGrows(d * i, d * j, steps);
    MulGrows(d, j, steps);
    QuotientGrows(d * j, d * steps, steps);
    WholeShare(d, steps);
  }

  lemma WholeShare(d: nat, steps: nat)
    requires steps > 0
    ensures Share(d, steps, steps) == d
  {
    var q, r := d * steps / steps, d * steps % steps;
    assert d * steps == steps * q + r;
    assert steps * (d - q) == r;
    if q < d { MulGrows(steps, 1, d - q); }
  }

  lemma QuotientGrows(a: nat, b: nat, k: nat)
    requires a <= b && k > 0
    ensures a / k <= b / k
  {
    var q, p := a / k, b / k;
    assert k * q <= a && b < k * p + k;
    if p < q { MulGrows(k, p + 1, q); }
  }

  /** How far along a line the i-th point is. */
  function Along(a: int, b: int, i: nat, steps: nat): int
    requires steps > 0
  {
    a + TruncDiv((b - a) * i, steps)
  }

  lemma AlongIsShare(a: int, b: int, i: nat, steps: nat)
    requires steps > 0
    ensures Along(a, b, i, steps) == if b >= a then a + Share(b - a, i, steps) else a - Share(a - b, i, steps)
  {
    if b < a {
      assert (b - a) * i == -((a - b) * i);
    }
  }

  lemma StaysBetween(a: int, b: int, i: nat, j: nat, steps: nat)
    requires i <= j <= steps && steps > 0
    ensures Between(a, Along(a, b, j, steps), b)
    ensures Between(Along(a, b, i, steps), Along(a, b, j, steps), b)
    ensures Along(a, b, steps, steps) == b && Along(a, b, 0, steps) == a
  {
    var d := if b >= a then b - a else a - b;
    ShareGrows(d, i, j, steps);
    WholeShare(d, steps);
    AlongIsShare(a, b, i, steps);
    AlongIsShare(a, b, j, steps);
    AlongIsShare(a, b, steps, steps);
    hide Share, Along;
    assert Along(a, b, 0, steps) == a by { AtStart(a, b, steps); }
  }

  lemma AtStart(a: int, b: int, steps: nat)
    requires steps > 0
    ensures Along(a, b, 0, steps) == a
  {
  }

  /** A finger somewhere on the way from one point to the other. */
  predicate OnTheWay(t: Touch, x1: int, y1: int, x2: int, y2: int) {
    t.active && t.pressed && Between(x1, t.x, x2) && Between(y1, t.y, y2)
  }

  /** Pressed at the start, moving towards the end without ever turning back, there
      before it is lifted, and lifted where it arrived. */
  predicate IsSwipe(log: seq<Touch>, x1: int, y1: int, x2: int, y2: int) {
    && |log| >= 8
    && log[0] == Touch(x1, y1, true, true)
    && (forall i :: 0 <= i < |log| - 2 ==> OnTheWay(log[i], x1, y1, x2, y2))
    && (forall i :: 0 < i < |log| - 2 ==> Between(log[i - 1].x, log[i].x, x2) && Between(log[i - 1].y, log[i].y, y2))
    && log[|log| - 3] == Touch(x2, y2, true, true)
    && log[|log| - 2] == Touch(x2, y2, true, false)
    && log[|log| - 1] == NO_TOUCH
  }

  /** The i-th of that many equal parts of the way from a to b, as near to it from a's side as whole numbers get. */
  predicate IsPart(a: int, x: int, b: int, i: nat, steps: nat) {
    if a <= b then a <= x && (x - a) * steps <= (b - a) * i < (x - a + 1) * steps
    else x <= a && (a - x) * steps <= (a - b) * i < (a - x + 1) * steps
  }

  lemma AlongIsPart(a: int, b: int, i: nat, steps: nat)
    requires i <= steps && steps > 0
    ensures IsPart(a, Along(a, b, i, steps), b, i, steps)
  {
    hide Share, Along;
    AlongIsShare(a, b, i, steps);
    ShareIsPart(if b >= a then b - a else a - b, i, steps);
  }

  lemma ShareIsPart(d: nat, i: nat, steps: nat)
    requires steps > 0
    ensures Share(d, i, steps) * steps <= d * i < (Share(d, i, steps) + 1) * steps
  {
    var n := d * i;
    assert n == n / steps * steps + n % steps;
  }

  /** A finger put down, a step about every 20 ms of a duration between 50 ms and 3 s, but five at
      least, each an equal part of the way, and a finger lifted. */
  method Swipe(x1: int, y1: int, x2: int, y2: int, durationMs: int) returns (log: seq<Touch>)
    ensures IsSwipe(log, x1, y1, x2, y2) && |log| <= 153
    ensures var steps := if durationMs < 100 then 5 else if durationMs > 3000 then 150 else durationMs / 20;
            && |log| == steps + 3
            && forall i :: 0 <= i <= steps ==> IsPart(x1, log[i].x, x2, i, steps) && IsPart(y1, log[i].y, y2, i, steps)
  {
    hide Along, IsPart;
    var dur := if durationMs < 50 then 50 else if durationMs > 3000 then 3000 else durationMs;
    var steps := dur / 20;
    if steps < 5 { steps := 5; }
    log := [Touch(x1, y1, true, true)];
    AlongIsPart(x1, x2, 0, steps);
    AlongIsPart(y1, y2, 0, steps);
    StaysBetween(x1, x2, 0, 0, steps);
    StaysBetween(y1, y2, 0, 0, steps);
    for i := 1 to steps + 1
      invariant |log| == i && log[0] == Touch(x1, y1, true, true)
      invariant log[i - 1] == Touch(Along(x1, x2, i - 1, steps), Along(y1, y2, i - 1, steps), true, true)
      invariant forall k :: 0 <= k < i ==> IsPart(x1, log[k].x, x2, k, steps) && IsPart(y1, log[k].y, y2, k, steps)
      invariant forall k :: 0 <= k < i ==> OnTheWay(log[k], x1, y1, x2, y2)
      invariant forall k :: 0 < k < i ==> Between(log[k - 1].x, log[k].x, x2) && Between(log[k - 1].y, log[k].y, y2)
    {
      AlongIsPart(x1, x2, i, steps);
      AlongIsPart(y1, y2, i, steps);
      StaysBetween(x1, x2, i - 1, i, steps);
      StaysBetween(y1, y2, i - 1, i, steps);
      log := log + [Touch(Along(x1, x2, i, steps), Along(y1, y2, i, steps), true, true)];
    }
    var last := log[|log| - 1];
    log := log + [Touch(last.x, last.y, true, false)] + [Touch(0, 0, false, false)];
  }

  lemma {:induction false} OnlyPublishedIsPublished(actions: seq<Action>, literal: bool, log: seq<Touch>)
    requires forall a :: a in actions && a.Publish? ==> a.v in log
    ensures var s := Run(actions, literal);
            && (forall t :: t in s.published ==> t == NO_TOUCH || t in log)
            && (s.writer.Writing? ==> s.writer.v in log)
  {
    if actions != [] {
      OnlyPublishedIsPublished(actions[..|actions| - 1], literal, log);
      assert actions[|actions| - 1] in actions;
    }
  }

  /** No touch, a finger on the line between the two points, or the lift at the end point. */
  predicate Seen(t: Touch, x1: int, y1: int, x2: int, y2: int) {
    t == NO_TOUCH || t == Touch(x2, y2, true, false) || OnTheWay(t, x1, y1, x2, y2)
  }

  lemma SwipeIsSeen(log: seq<Touch>, t: Touch, x1: int, y1: int, x2: int, y2: int)
    requires IsSwipe(log, x1, y1, x2, y2) && t in log
    ensures Seen(t, x1, y1, x2, y2)
  {
  }

  /** While nothing but a swipe is published, a read with the intended retry sees no touch,
      the lift at the end point, or a finger on the line between the two points. */
  lemma ReaderSeesOnlyTheSwipe(actions: seq<Action>, log: seq<Touch>, x1: int, y1: int, x2: int, y2: int)
    requires IsSwipe(log, x1, y1, x2, y2)
    requires forall a :: a in actions && a.Publish? ==> a.v in log
    ensures var s := Run(actions, false);
            s.phase.Done? ==> Seen(s.snap, x1, y1, x2, y2)
  {
    NoTornReads(actions);
    OnlyPublishedIsPublished(actions, false, log);
    var s := Run(actions, false);
    if s.phase.Done? {
      var k :| ReadsOne(s, k);
      assert s.snap in s.published;
      if s.snap in log { SwipeIsSeen(log, s.snap, x1, y1, x2, y2); }
    }
  }

  // ------------------------------------------------------------------ the literal loop

  /** Every field was loaded while it held that of a point on the way, not always the same one. */
  ghost predicate LoadedOnTheWay(s: State, x1: int, y1: int, x2: int, y2: int)
    requires |s.stamps| == 4
  {
    forall n :: 0 <= n < 4 ==>
      HasTuple(s, Source(s.stamps[n], n)) && OnTheWay(Tuple(s, Source(s.stamps[n], n)), x1, y1, x2, y2)
  }

  /** The literal loop sees nothing else either when its four fields came from one publish, and
      even from several if all of those are points on the way. */
  lemma LiteralReaderSees(actions: seq<Action>, log: seq<Touch>, x1: int, y1: int, x2: int, y2: int)
    requires IsSwipe(log, x1, y1, x2, y2)
    requires forall a :: a in actions && a.Publish? ==> a.v in log
    ensures var s := Run(actions, true);
            s.phase.Done? ==>
              && |s.stamps| == 4
              && (SourcesAgree(s) || LoadedOnTheWay(s, x1, y1, x2, y2) ==> Seen(s.snap, x1, y1, x2, y2))
  {
    RunKeepsInv(actions, true);
    OnlyPublishedIsPublished(actions, true, log);
    var s := Run(actions, true);
    if s.phase.Done? && SourcesAgree(s) {
      AgreeingIsWhole(s);
      var k :| ReadsTuple(s, k);
      if s.snap in log { SwipeIsSeen(log, s.snap, x1, y1, x2, y2); }
    }
    if s.phase.Done? && LoadedOnTheWay(s, x1, y1, x2, y2) { MixedOnTheWay(s, x1, y1, x2, y2); }
    hide Run, IsSwipe, Source;
  }

  lemma MixedOnTheWay(s: State, x1: int, y1: int, x2: int, y2: int)
    requires Inv(s) && s.phase.Done? && LoadedOnTheWay(s, x1, y1, x2, y2)
    ensures OnTheWay(s.snap, x1, y1, x2, y2)
  {
    forall n | 0 <= n < 4 ensures LoadedAt(s, s.stamps[n], n) {}
    assert LoadedAt(s, s.stamps[0], 0) && LoadedAt(s, s.stamps[1], 1);
    assert LoadedAt(s, s.stamps[2], 2) && LoadedAt(s, s.stamps[3], 3);
    hide Source, WriterInv;
  }

  /** In particular a literal read that leaves on an even word. */
  lemma EvenLiteralReaderSees(actions: seq<Action>, log: seq<Touch>, x1: int, y1: int, x2: int, y2: int)
    requires IsSwipe(log, x1, y1, x2, y2)
    requires forall a :: a in actions && a.Publish? ==> a.v in log
    ensures var s := Run(actions, true);
            s.phase.Done? && s.before % 2 == 0 ==> Seen(s.snap, x1, y1, x2, y2)
  {
    NotStaleIsWhole(actions);
    LiteralReaderSees(actions, log, x1, y1, x2, y2);
    hide Run, IsSwipe, Seen;
  }

  const SWIPE: seq<Touch> := [
    Touch(1, 2, true, true), Touch(2, 3, true, true), Touch(4, 4, true, true), Touch(5, 6, true, true),
    Touch(7, 7, true, true), Touch(9, 9, true, true), Touch(9, 9, true, false), NO_TOUCH]

  /** But not always: the press of the swipe from (1, 2) to (9, 9), half stored, is read as a lift
      at a point off the path. */
  lemma LiteralReaderSeesMore()
    ensures IsSwipe(SWIPE, 1, 2, 9, 9)
    ensures forall a :: a in TEARING && a.Publish? ==> a.v in SWIPE
    ensures var s := Run(TEARING, true);
            s.phase.Done? && s.snap == Touch(0, 2, true, false) && !Seen(s.snap, 1, 2, 9, 9)
  {
    LiteralCanTear();
    forall a | a in TEARING && a.Publish? ensures a.v in SWIPE { assert a.v == PRESS && SWIPE[0] == PRESS; }
    hide Run;
  }
}
