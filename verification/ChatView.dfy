// The recycled bubble slots of main/chat_msg_view.c, drawing left out: which message
// each slot shows after a refresh.

module ChatView {
  import opened Basics

  const POOL_SIZE: nat := 12
  const MAX_MESSAGES: nat := 100
  const BUBBLE_GAP: int := 36
  const BUBBLE_TS_H: int := 22
  const VIS_BUFFER: int := 480
  const STREAM_BUF: nat := 2048

  /** Where message i starts, given the estimated heights. */
  function Top(heights: seq<nat>, i: nat): int
    requires i <= |heights|
  {
    if i == 0 then BUBBLE_GAP else Top(heights, i - 1) + heights[i - 1] + BUBBLE_TS_H + BUBBLE_GAP
  }

  /** What a refresh is told: the heights, the container, and where it is scrolled to. */
  datatype Scene = Scene(heights: seq<nat>, visible: nat, scroll: int) {
    function ViewTop(): int { scroll - VIS_BUFFER }
    function ViewBottom(): int { scroll + visible + VIS_BUFFER }

    predicate InWindow(i: int) {
      0 <= i < |heights| && Top(heights, i) + heights[i] >= ViewTop() && Top(heights, i) <= ViewBottom()
    }
  }

  /** No message is shown by two slots. */
  predicate ShownOnce(pool: seq<int>) {
    forall s, t :: 0 <= s < t < |pool| && pool[s] != -1 ==> pool[s] != pool[t]
  }

  /** The slot may go on showing what it shows. */
  predicate Stays(scene: Scene, idx: int, streaming: bool, streamIdx: int) {
    scene.InWindow(idx) || (streaming && idx == streamIdx)
  }

  /** The second pass: slots that show nothing wanted are freed. */
  ghost predicate Freed(before: seq<int>, after: seq<int>, scene: Scene, streaming: bool, streamIdx: int, upTo: nat) {
    && |after| == |before| == POOL_SIZE
    && forall s :: 0 <= s < POOL_SIZE ==>
         after[s] == if s >= upTo || Stays(scene, before[s], streaming, streamIdx) then before[s] else -1
  }

  /** The third pass up to message `upTo`: free slots take up messages of the window,
      lowest first, and nothing already shown moves. */
  ghost predicate Filled(freed: seq<int>, pool: seq<int>, scene: Scene, upTo: nat) {
    && |pool| == |freed| == POOL_SIZE && ShownOnce(pool)
    && (forall s :: 0 <= s < POOL_SIZE && freed[s] != -1 ==> pool[s] == freed[s])
    && (forall s :: 0 <= s < POOL_SIZE && freed[s] == -1 && pool[s] != -1 ==> scene.InWindow(pool[s]) && pool[s] < upTo)
    && (forall i :: 0 <= i < upTo && scene.InWindow(i) && i !in pool ==>
          -1 !in pool && forall s :: 0 <= s < POOL_SIZE && freed[s] == -1 ==> pool[s] < i)
  }

  datatype State = State(pool: seq<int>, streaming: bool, streamIdx: int, scrolledUp: bool, buf: string) {
    /** What a refresh works with: pinned to the bottom, or where the user has scrolled to. */
    function SceneOf(heights: seq<nat>, visible: nat, scrollNow: int): Scene {
      PinnedScene(heights, visible, scrollNow, !scrolledUp || streaming)
    }
  }

  function PinnedScene(heights: seq<nat>, visible: nat, scrollNow: int, pinned: bool): Scene {
    var target := Top(heights, |heights|) - visible;
    Scene(heights, visible, if !pinned then scrollNow else if target < 0 then 0 else target)
  }

  /** Scrolled up and not streaming, a refresh leaves the view where it is; in every other case it goes to
      the bottom, or to the top if the messages do not fill the container. */
  lemma SceneIsPinnedIff(s: State, heights: seq<nat>, visible: nat, scrollNow: int)
    ensures var scene, bottom := s.SceneOf(heights, visible, scrollNow), Top(heights, |heights|);
            && scene.heights == heights && scene.visible == visible
            && scene.scroll == if s.scrolledUp && !s.streaming then scrollNow
                               else if bottom <= visible then 0 else bottom - visible
  {
    hide Top;
  }

  /** A message is in the window if and only if it starts no more than 480 below what is seen and ends no
      more than 480 above it; it starts 58 below the end of the one before, and the first one at 36. */
  lemma InWindowIff(scene: Scene, i: nat)
    requires i < |scene.heights|
    ensures scene.InWindow(i) <==>
              && Top(scene.heights, i) <= scene.scroll + scene.visible + 480
              && Top(scene.heights, i) + scene.heights[i] >= scene.scroll - 480
    ensures Top(scene.heights, 0) == 36 && Top(scene.heights, i + 1) == Top(scene.heights, i) + scene.heights[i] + 58
  {
  }

  predicate ShowsNothing(pool: seq<int>) {
    |pool| == POOL_SIZE && forall s :: 0 <= s < POOL_SIZE ==> pool[s] == -1
  }

  function Invalidated(pool: seq<int>, idx: int): seq<int> {
    seq(|pool|, s requires 0 <= s < |pool| => if idx >= 0 && pool[s] == idx then -1 else pool[s])
  }

  /** The calls that touch the pool or decide what the next refresh does. */
  datatype Call =
    | Refreshing(heights: seq<nat>, visible: nat, scrollNow: int)
    | Invalidating(idx: int) | Beginning(count: nat) | Buffering(text: string) | Ending | Scrolling(up: bool)

  /** As much of the text as the stream buffer has room for. */
  function Room(buf: string, text: string): (n: nat)
    ensures n <= |text|
  {
    if |buf| + |text| < STREAM_BUF - 1 then |text|
    else if |buf| < STREAM_BUF then Min(STREAM_BUF - 1 - |buf|, |text|)
    else 0
  }

  function Appended(buf: string, text: string): string {
    buf + text[..Room(buf, text)]
  }

  /** Free what is not wanted, then fill from the window; an empty store hides everything. */
  ghost predicate Refreshes(s: State, after: seq<int>, scene: Scene) {
    if scene.heights == [] then ShowsNothing(after)
    else
      exists freed :: Freed(s.pool, freed, scene, s.streaming, s.streamIdx, POOL_SIZE)
                   && Filled(freed, after, scene, |scene.heights|)
  }

  ghost predicate Step(s: State, s': State, c: Call) {
    match c
    case Refreshing(heights, visible, scrollNow) =>
      s' == s.(pool := s'.pool) && Refreshes(s, s'.pool, s.SceneOf(heights, visible, scrollNow))
    case Invalidating(idx) => s' == s.(pool := Invalidated(s.pool, idx))
    case Beginning(count) => s' == s.(streaming := true, streamIdx := count - 1, scrolledUp := false, buf := "")
    case Buffering(text) => s' == s.(buf := Appended(s.buf, text))
    case Ending => s' == s.(streaming := false, streamIdx := -1, buf := "")
    case Scrolling(up) => s' == s.(scrolledUp := up)
  }

  class View {
    const pool: array<int>
    var streaming: bool
    var streamIdx: int
    var userScrolledUp: bool
    var streamBuf: string

    ghost predicate Valid()
      reads this, pool
    {
      pool.Length == POOL_SIZE && ShownOnce(pool[..]) && |streamBuf| < STREAM_BUF
    }

    ghost function Value(): State
      reads this, pool
    {
      State(pool[..], streaming, streamIdx, userScrolledUp, streamBuf)
    }

    constructor ()
      ensures Valid() && fresh(pool) && ShowsNothing(pool[..])
      ensures Value() == State(pool[..], false, -1, false, "")
    {
      pool := new int[POOL_SIZE](_ => -1);
      streaming, streamIdx, userScrolledUp, streamBuf := false, -1, false, "";
    }

    method InvalidateIndex(idx: int)
      requires Valid()
      modifies pool
      ensures Valid() && Step(old(Value()), Value(), Invalidating(idx))
    {
      if idx < 0 {
        assert Invalidated(pool[..], idx) == pool[..];
        return;
      }
      for s := 0 to POOL_SIZE
        invariant forall t :: 0 <= t < POOL_SIZE ==> pool[t] == if t < s && old(pool[t]) == idx then -1 else old(pool[t])
      {
        if pool[s] == idx { pool[s] := -1; }
      }
      assert pool[..] == Invalidated(old(pool[..]), idx);
    }

    method BeginStreaming(storeCount: nat)
      requires Valid()
      modifies this
      ensures Valid() && Step(old(Value()), Value(), Beginning(storeCount))
    {
      streaming, streamBuf, streamIdx, userScrolledUp := true, "", storeCount - 1, false;
    }

    method HideAll()
      requires Valid()
      modifies pool
      ensures Valid() && ShowsNothing(pool[..])
    {
      for s := 0 to POOL_SIZE
        invariant forall t :: 0 <= t < s ==> pool[t] == -1
      {
        pool[s] := -1;
      }
    }

    /** Pass 2. */
    method FreeSlots(ys: array<int>, scene: Scene)
      requires Valid() && ys.Length >= |scene.heights| && ys != pool
      requires forall i :: 0 <= i < |scene.heights| ==> ys[i] == Top(scene.heights, i)
      modifies pool
      ensures Valid() && Freed(old(pool[..]), pool[..], scene, streaming, streamIdx, POOL_SIZE)
    {
      var total := |scene.heights|;
      for i := 0 to POOL_SIZE
        invariant Freed(old(pool[..]), pool[..], scene, streaming, streamIdx, i)
        invariant forall k :: 0 <= k < |scene.heights| ==> ys[k] == Top(scene.heights, k)
      {
        var idx := pool[i];
        if idx < 0 || idx >= total {
          if streaming && idx == streamIdx { continue; }
          pool[i] := -1;
          continue;
        }
        var y, h := ys[idx], scene.heights[idx];
        if y + h < scene.ViewTop() || y > scene.ViewBottom() {
          if streaming && idx == streamIdx { continue; }
          pool[i] := -1;
        }
      }
    }

    method FindSlot(idx: int) returns (slot: int)
      requires Valid()
      ensures slot == -1 ==> idx !in pool[..]
      ensures slot != -1 ==> 0 <= slot < POOL_SIZE && pool[slot] == idx
    {
      for s := 0 to POOL_SIZE
        invariant idx !in pool[..s]
      {
        if pool[s] == idx { return s; }
      }
      return -1;
    }

    /** Pass 3. */
    method FillSlots(ys: array<int>, scene: Scene)
      requires Valid() && ys.Length >= |scene.heights| && ys != pool
      requires forall i :: 0 <= i < |scene.heights| ==> ys[i] == Top(scene.heights, i)
      modifies pool
      ensures Valid() && Filled(old(pool[..]), pool[..], scene, |scene.heights|)
    {
      ghost var freed := pool[..];
      FillStarts(freed, scene);
      hide Filled;
      for i := 0 to |scene.heights|
        invariant Valid() && Filled(freed, pool[..], scene, i)
        invariant forall k :: 0 <= k < |scene.heights| ==> ys[k] == Top(scene.heights, k)
      {
        FillMoves(freed, pool[..], scene, i);
        var y, h := ys[i], scene.heights[i];
        if y + h < scene.ViewTop() || y > scene.ViewBottom() { continue; }
        var bound := FindSlot(i);
        if bound >= 0 { continue; }
        var slot := FindSlot(-1);
        if slot < 0 { break; }
        FillTakes(freed, pool[..], scene, i, slot);
        pool[slot] := i;
      }
    }

    /** chat_msg_view_refresh: the heights of the messages in the store, and what LVGL
        reports of the scroll container. */
    method Refresh(heights: seq<nat>, visible: nat, scrollNow: int)
      requires Valid() && |heights| <= MAX_MESSAGES
      modifies pool
      ensures Valid() && Step(old(Value()), Value(), Refreshing(heights, visible, scrollNow))
    {
      var total := |heights|;
      if total == 0 {
        HideAll();
        return;
      }
      ghost var before := Value();
      var ys := new int[MAX_MESSAGES];
      var running := BUBBLE_GAP;
      for i := 0 to total
        invariant pool[..] == before.pool && running == Top(heights, i)
        invariant forall k :: 0 <= k < i ==> ys[k] == Top(heights, k)
      {
        ys[i] := running;
        running := running + heights[i] + BUBBLE_TS_H + BUBBLE_GAP;
      }
      var target := running - visible;
      if target < 0 { target := 0; }
      var scroll := if !userScrolledUp || streaming then target else scrollNow;
      FreeSlots(ys, Scene(heights, visible, scroll));
      ghost var freed := pool[..];
      FillSlots(ys, Scene(heights, visible, scroll));
      assert Freed(before.pool, freed, before.SceneOf(heights, visible, scrollNow), streaming, streamIdx, POOL_SIZE);
    }

    /** chat_msg_view_append_stream; `stored` says whether streamBuf is what
        chat_store_update_last_text is given.  The heights are those after that. */
    method AppendStream(text: string, heights: seq<nat>, visible: nat, scrollNow: int)
      returns (stored: bool, ghost ss: seq<State>)
      requires Valid() && |heights| <= MAX_MESSAGES
      modifies this, pool
      ensures Valid() && IsRun(AppendCalls(old(Value()), text, heights, visible, scrollNow), ss)
      ensures ss[0] == old(Value()) && ss[|ss| - 1] == Value() && stored == Fits(old(Value()), text)
    {
      ss := [Value()];
      if !streaming {
        BeginStreaming(|heights|);
        ss := ss + [Value()];
      }
      var tlen := |text|;
      if |streamBuf| + tlen >= STREAM_BUF - 1 { tlen := STREAM_BUF - 1 - |streamBuf|; }
      if tlen == 0 { return false, ss; }
      AppendRoom(streamBuf, text, tlen);
      hide Step, ShownOnce, Room;
      streamBuf := streamBuf + text[..tlen];
      BufferingSteps(ss[|ss| - 1], Value(), text);
      ss := ss + [Value()];
      ss := ShowStreamed(ss, text, heights, visible, scrollNow);
      return true, ss;
    }

    /** The part of an append that comes after the text. */
    method ShowStreamed(ghost before: seq<State>, ghost text: string, heights: seq<nat>, visible: nat, scrollNow: int)
      returns (ghost ss: seq<State>)
      requires Valid() && |heights| <= MAX_MESSAGES && before != [] && before[|before| - 1] == Value()
      modifies this, pool
      ensures Valid() && |ss| == |before| + 3 && before <= ss && ss[|ss| - 1] == Value()
      ensures var n := |before| - 1;
              && Step(ss[n], ss[n + 1], Invalidating(|heights| - 1))
              && Step(ss[n + 1], ss[n + 2], Refreshing(heights, visible, scrollNow))
              && Step(ss[n + 2], ss[n + 3], Scrolling(false))
    {
      InvalidateIndex(|heights| - 1);
      ss := before + [Value()];
      Refresh(heights, visible, scrollNow);
      ss := ss + [Value()];
      userScrolledUp := false;
      ss := ss + [Value()];
    }

    /** chat_msg_view_end_streaming. */
    method EndStreaming(heights: seq<nat>, visible: nat, scrollNow: int) returns (ghost ss: seq<State>)
      requires Valid() && |heights| <= MAX_MESSAGES
      modifies this, pool
      ensures Valid() && IsRun([Ending, Refreshing(heights, visible, scrollNow)], ss)
      ensures ss[0] == old(Value()) && ss[2] == Value()
    {
      ss := [Value()];
      streaming, streamIdx, streamBuf := false, -1, "";
      ss := ss + [Value()];
      Refresh(heights, visible, scrollNow);
      ss := ss + [Value()];
    }
  }

  lemma AppendRoom(buf: string, text: string, tlen: nat)
    requires |buf| < STREAM_BUF
    requires tlen == if |buf| + |text| >= STREAM_BUF - 1 then STREAM_BUF - 1 - |buf| else |text|
    ensures tlen <= |text| && tlen == Room(buf, text)
  {
  }

  lemma BufferingSteps(s: State, s': State, text: string)
    requires s' == s.(buf := Appended(s.buf, text))
    ensures Step(s, s', Buffering(text))
  {
  }

  /** Some of the text still fits. */
  predicate Fits(s: State, text: string) {
    Room(if s.streaming then s.buf else "", text) > 0
  }

  function AppendCalls(s: State, text: string, heights: seq<nat>, visible: nat, scrollNow: int): seq<Call> {
    (if s.streaming then [] else [Beginning(|heights|)])
    + if Fits(s, text) then ShowCalls(text, heights, visible, scrollNow) else []
  }

  function ShowCalls(text: string, heights: seq<nat>, visible: nat, scrollNow: int): seq<Call> {
    [Buffering(text), Invalidating(|heights| - 1), Refreshing(heights, visible, scrollNow), Scrolling(false)]
  }

  /** The states a view goes through. */
  ghost predicate IsRun(calls: seq<Call>, ss: seq<State>) {
    |ss| == |calls| + 1 && forall i :: 0 <= i < |calls| ==> Step(ss[i], ss[i + 1], calls[i])
  }

  lemma FillStarts(freed: seq<int>, scene: Scene)
    requires |freed| == POOL_SIZE && ShownOnce(freed)
    ensures Filled(freed, freed, scene, 0)
  {
  }

  /** A message outside the window or already shown changes nothing; nor does any once all slots are taken. */
  lemma FillMoves(freed: seq<int>, pool: seq<int>, scene: Scene, i: nat)
    requires Filled(freed, pool, scene, i) && i < |scene.heights|
    ensures !scene.InWindow(i) || i in pool ==> Filled(freed, pool, scene, i + 1)
    ensures -1 !in pool ==> Filled(freed, pool, scene, |scene.heights|)
  {
    hide Scene.InWindow;
  }

  lemma FillTakes(freed: seq<int>, pool: seq<int>, scene: Scene, i: nat, slot: nat)
    requires Filled(freed, pool, scene, i) && scene.InWindow(i) && i !in pool
    requires slot < POOL_SIZE && pool[slot] == -1
    ensures ShownOnce(pool[slot := i]) && Filled(freed, pool[slot := i], scene, i + 1)
  {
    hide Scene.InWindow;
    var pool' := pool[slot := i];
    assert pool[slot] == -1 && pool'[slot] == i;
    forall k | 0 <= k < i && scene.InWindow(k) ensures k in pool' {
      assert k in pool;
      var s :| 0 <= s < POOL_SIZE && pool[s] == k;
      assert pool'[s] == k;
    }
  }

  // ------------------------------------------------------------ what a refresh gives

  /** Every shown slot is in the window or streaming; a slot that could stay has not
      changed; a message of the window is shown unless no slot is free. */
  lemma AfterRefresh(before: seq<int>, freed: seq<int>, after: seq<int>, scene: Scene, streaming: bool, streamIdx: int)
    requires Freed(before, freed, scene, streaming, streamIdx, POOL_SIZE) && Filled(freed, after, scene, |scene.heights|)
    ensures ShownOnce(after)
    ensures forall s :: 0 <= s < POOL_SIZE && after[s] != -1 ==> Stays(scene, after[s], streaming, streamIdx)
    ensures forall s :: 0 <= s < POOL_SIZE && before[s] != -1 && Stays(scene, before[s], streaming, streamIdx) ==>
              after[s] == before[s]
    ensures forall i :: scene.InWindow(i) ==> i in after || -1 !in after
  {
    hide Scene.InWindow;
    forall i | scene.InWindow(i) ensures i in after || -1 !in after {
      InWindowIsMessage(scene, i);
    }
  }

  lemma InWindowIsMessage(scene: Scene, i: int)
    requires scene.InWindow(i)
    ensures 0 <= i < |scene.heights|
  {
  }

  function Elements(pool: seq<int>): set<int> {
    set s | 0 <= s < |pool| :: pool[s]
  }

  /** As many different elements as slots. */
  lemma {:induction false} AllDifferent(pool: seq<int>)
    requires ShownOnce(pool) && forall s :: 0 <= s < |pool| ==> pool[s] != -1
    ensures |Elements(pool)| == |pool|
  {
    if pool != [] {
      var n := |pool| - 1;
      AllDifferent(pool[..n]);
      assert Elements(pool) == Elements(pool[..n]) + {pool[n]};
      assert pool[n] !in Elements(pool[..n]);
    }
  }

  lemma SubsetIsSmaller(a: set<int>, b: set<int>)
    requires a <= b
    ensures |a| <= |b|
  {
    assert b == a + (b - a);
  }

  function Window(scene: Scene, upTo: nat): (w: set<int>)
    requires upTo <= |scene.heights|
  {
    set i | 0 <= i < upTo && scene.InWindow(i)
  }

  /** With slots enough for the window and the streaming message, nothing in the window is missing. */
  lemma NothingMissingIfItFits(
      before: seq<int>, freed: seq<int>, after: seq<int>, scene: Scene, streaming: bool, streamIdx: int, i: int)
    requires Freed(before, freed, scene, streaming, streamIdx, POOL_SIZE) && Filled(freed, after, scene, |scene.heights|)
    requires |Window(scene, |scene.heights|) + if streaming then {streamIdx} else {}| <= POOL_SIZE
    requires scene.InWindow(i)
    ensures i in after
  {
    AfterRefresh(before, freed, after, scene, streaming, streamIdx);
    if i !in after {
      AllDifferent(after);
      var wanted := Window(scene, |scene.heights|) + if streaming then {streamIdx} else {};
      InWindowIsMessage(scene, i);
      forall x | x in Elements(after) ensures x in wanted - {i} {
        var s :| 0 <= s < |after| && after[s] == x;
        assert after[s] in after;
        assert Stays(scene, after[s], streaming, streamIdx);
      }
      assert i in wanted;
      SubsetIsSmaller(Elements(after), wanted - {i});
      assert false;
    }
  }

  predicate PoolInv(s: State) {
    |s.pool| == POOL_SIZE && ShownOnce(s.pool)
  }

  lemma StepKeepsPoolInv(s: State, s': State, c: Call)
    requires PoolInv(s) && Step(s, s', c)
    ensures PoolInv(s')
  {
  }

  /** Whatever is called, no message is ever shown by two slots. */
  lemma {:induction false} RunKeepsPoolInv(calls: seq<Call>, ss: seq<State>)
    requires IsRun(calls, ss) && PoolInv(ss[0])
    ensures forall i :: 0 <= i < |ss| ==> PoolInv(ss[i])
  {
    if calls != [] {
      var n := |calls| - 1;
      RunKeepsPoolInv(calls[..n], ss[..n + 1]);
      assert Step(ss[n], ss[n + 1], calls[n]);
      StepKeepsPoolInv(ss[n], ss[n + 1], calls[n]);
    }
  }

  /** After every refresh of every run: each slot is empty, in the window or streaming,
      and a message of the window is missing only when no slot is free. */
  lemma EveryRefreshShowsTheWindow(calls: seq<Call>, ss: seq<State>, n: nat)
    requires IsRun(calls, ss) && n < |calls| && calls[n].Refreshing?
    ensures var scene := ss[n].SceneOf(calls[n].heights, calls[n].visible, calls[n].scrollNow);
            && (forall m :: m in ss[n + 1].pool ==> m == -1 || Stays(scene, m, ss[n].streaming, ss[n].streamIdx))
            && (forall i :: scene.InWindow(i) ==> i in ss[n + 1].pool || -1 !in ss[n + 1].pool)
  {
    var s, s', scene := ss[n], ss[n + 1], ss[n].SceneOf(calls[n].heights, calls[n].visible, calls[n].scrollNow);
    assert Step(s, s', calls[n]);
    hide Scene.InWindow;
    if scene.heights != [] {
      var freed :| Freed(s.pool, freed, scene, s.streaming, s.streamIdx, POOL_SIZE)
                && Filled(freed, s'.pool, scene, |scene.heights|);
      AfterRefresh(s.pool, freed, s'.pool, scene, s.streaming, s.streamIdx);
    } else {
      forall i | scene.InWindow(i) ensures false { InWindowIsMessage(scene, i); }
    }
  }

  /** The call gives the slot of message m no reason to let go of it. */
  predicate Spares(s: State, c: Call, m: int) {
    if c.Refreshing? then
      c.heights != [] && Stays(s.SceneOf(c.heights, c.visible, c.scrollNow), m, s.streaming, s.streamIdx)
    else c.Invalidating? ==> c.idx != m
  }

  lemma StepSpares(s: State, s': State, c: Call, slot: nat)
    requires PoolInv(s) && Step(s, s', c) && slot < POOL_SIZE && s.pool[slot] >= 0
    ensures |s'.pool| == POOL_SIZE
    ensures Spares(s, c, s.pool[slot]) ==> s'.pool[slot] == s.pool[slot]
    ensures c.Refreshing? || c.Invalidating? ==> !Spares(s, c, s.pool[slot]) ==> s'.pool[slot] != s.pool[slot]
  {
  }

  /** A message keeps its slot through any run of calls that spare it: bubbles do not move about. */
  lemma {:induction false} SparedStaysPut(calls: seq<Call>, ss: seq<State>, slot: nat, m: nat)
    requires IsRun(calls, ss) && PoolInv(ss[0]) && slot < POOL_SIZE && ss[0].pool[slot] == m
    requires forall i :: 0 <= i < |calls| ==> Spares(ss[i], calls[i], m)
    ensures |ss[|calls|].pool| == POOL_SIZE && ss[|calls|].pool[slot] == m
  {
    if calls != [] {
      var n := |calls| - 1;
      SparedStaysPut(calls[..n], ss[..n + 1], slot, m);
      RunKeepsPoolInv(calls[..n], ss[..n + 1]);
      assert Step(ss[n], ss[n + 1], calls[n]);
      StepSpares(ss[n], ss[n + 1], calls[n], slot);
    }
  }

  /** A refresh while the newest message is streamed shows it, if the window at the tail fits the pool. */
  lemma RefreshShowsStreamed(s: State, s': State, heights: seq<nat>, visible: nat, scrollNow: int)
    requires Step(s, s', Refreshing(heights, visible, scrollNow)) && s.streaming && s.streamIdx == |heights| - 1 >= 0
    requires |Window(PinnedScene(heights, visible, scrollNow, true), |heights|)| <= POOL_SIZE
    ensures |heights| - 1 in s'.pool
  {
    var scene := PinnedScene(heights, visible, scrollNow, true);
    var freed :| Freed(s.pool, freed, scene, true, s.streamIdx, POOL_SIZE) && Filled(freed, s'.pool, scene, |heights|);
    NewestIsInWindow(heights, visible, scrollNow);
    assert scene.heights == heights;
    hide Freed, Filled, Scene.InWindow, PinnedScene;
    assert s.streamIdx in Window(scene, |heights|);
    assert Window(scene, |heights|) + {s.streamIdx} == Window(scene, |heights|);
    NothingMissingIfItFits(s.pool, freed, s'.pool, scene, true, s.streamIdx, |heights| - 1);
  }

  lemma OtherStepsKeepStreaming(s: State, s': State, c: Call)
    requires Step(s, s', c) && (c.Buffering? || c.Invalidating?)
    ensures s'.streaming == s.streaming && s'.streamIdx == s.streamIdx
  {
  }

  /** When the window at the tail fits the pool, the message being streamed is shown after every
      append of text that still fits, wherever the user had scrolled to. */
  lemma StreamedIsShown(ss: seq<State>, text: string, heights: seq<nat>, visible: nat, scrollNow: int)
    requires |ss| > 1 && IsRun(AppendCalls(ss[0], text, heights, visible, scrollNow), ss) && Fits(ss[0], text)
    requires heights != [] && (ss[0].streaming ==> ss[0].streamIdx == |heights| - 1)
    requires |Window(PinnedScene(heights, visible, scrollNow, true), |heights|)| <= POOL_SIZE
    ensures |heights| - 1 in ss[|ss| - 1].pool
  {
    var calls, n := AppendCalls(ss[0], text, heights, visible, scrollNow), if ss[0].streaming then 0 else 1;
    assert calls[n] == Buffering(text) && calls[n + 1] == Invalidating(|heights| - 1);
    assert calls[n + 2] == Refreshing(heights, visible, scrollNow) && calls[n + 3] == Scrolling(false);
    assert !ss[0].streaming ==> calls[0] == Beginning(|heights|) && Step(ss[0], ss[1], calls[0]);
    assert Step(ss[n], ss[n + 1], calls[n]) && Step(ss[n + 1], ss[n + 2], calls[n + 1]);
    assert Step(ss[n + 2], ss[n + 3], calls[n + 2]) && Step(ss[n + 3], ss[n + 4], calls[n + 3]);
    assert ss[n].streaming && ss[n].streamIdx == |heights| - 1;
    assert ss[n + 4].pool == ss[n + 3].pool;
    hide Step, IsRun, AppendCalls;
    OtherStepsKeepStreaming(ss[n], ss[n + 1], Buffering(text));
    OtherStepsKeepStreaming(ss[n + 1], ss[n + 2], Invalidating(|heights| - 1));
    RefreshShowsStreamed(ss[n + 2], ss[n + 3], heights, visible, scrollNow);
  }

  function FreeSlots(freed: seq<int>): set<int> {
    set s | 0 <= s < |freed| && freed[s] == -1
  }

  /** The messages of the window before i that pass 2 left unshown. */
  function Waiting(freed: seq<int>, scene: Scene, i: nat): set<int>
    requires i <= |scene.heights|
  {
    set k | 0 <= k < i && scene.InWindow(k) && k !in freed
  }

  /** What the slots that were free show. */
  function TakenUp(freed: seq<int>, after: seq<int>): set<int>
    requires |freed| == |after|
  {
    set s | 0 <= s < |freed| && freed[s] == -1 :: after[s]
  }

  lemma LastSlot(freed: seq<int>, after: seq<int>)
    requires |freed| == |after| > 0
    ensures var n := |freed| - 1;
            if freed[n] == -1 then
              && FreeSlots(freed) == FreeSlots(freed[..n]) + {n} && n !in FreeSlots(freed[..n])
              && TakenUp(freed, after) == TakenUp(freed[..n], after[..n]) + {after[n]}
            else FreeSlots(freed) == FreeSlots(freed[..n]) && TakenUp(freed, after) == TakenUp(freed[..n], after[..n])
  {
  }

  lemma {:induction false} NoMoreMessages(freed: seq<int>, after: seq<int>)
    requires |freed| == |after|
    ensures |TakenUp(freed, after)| <= |FreeSlots(freed)|
  {
    if freed == [] {
      assert TakenUp(freed, after) == {};
    } else {
      LastSlot(freed, after);
      NoMoreMessages(freed[..|freed| - 1], after[..|freed| - 1]);
    }
    hide FreeSlots, TakenUp;
  }

  lemma {:induction false} AsManyMessages(freed: seq<int>, after: seq<int>)
    requires |freed| == |after| && ShownOnce(after) && forall s :: 0 <= s < |freed| && freed[s] == -1 ==> after[s] != -1
    ensures |TakenUp(freed, after)| == |FreeSlots(freed)|
  {
    if freed == [] {
      assert TakenUp(freed, after) == {} && FreeSlots(freed) == {};
    } else {
      var n := |freed| - 1;
      LastSlot(freed, after);
      AsManyMessages(freed[..n], after[..n]);
      assert freed[n] == -1 ==> after[n] !in TakenUp(freed[..n], after[..n]);
    }
    hide FreeSlots, TakenUp;
  }

  lemma TakenUpHasRoom(freed: seq<int>, after: seq<int>, scene: Scene, i: nat)
    requires Filled(freed, after, scene, |scene.heights|) && scene.InWindow(i) && i !in freed && i in after
    ensures i < |scene.heights| && |Waiting(freed, scene, i)| < |FreeSlots(freed)|
  {
    InWindowIsMessage(scene, i);
    hide Scene.InWindow;
    var slot :| 0 <= slot < POOL_SIZE && after[slot] == i;
    assert freed[slot] in freed;
    forall k | k in Waiting(freed, scene, i) + {i} ensures k in TakenUp(freed, after) {
      assert k in after;
      var s :| 0 <= s < POOL_SIZE && after[s] == k;
      assert freed[s] in freed;
      assert s in FreeSlots(freed);
    }
    SubsetIsSmaller(Waiting(freed, scene, i) + {i}, TakenUp(freed, after));
    NoMoreMessages(freed, after);
  }

  lemma NewIsNotFreed(freed: seq<int>, after: seq<int>, scene: Scene, s: nat)
    requires Filled(freed, after, scene, |scene.heights|) && s < POOL_SIZE && freed[s] == -1 != after[s]
    ensures after[s] !in freed
  {
    hide Scene.InWindow;
    forall t | 0 <= t < POOL_SIZE ensures freed[t] != after[s] {
      assert freed[t] != -1 ==> after[t] == freed[t];
    }
  }

  lemma LeftOutHadNone(freed: seq<int>, after: seq<int>, scene: Scene, i: nat)
    requires ShownOnce(freed) && Filled(freed, after, scene, |scene.heights|) && scene.InWindow(i) && i !in freed && i !in after
    ensures i < |scene.heights| && |Waiting(freed, scene, i)| >= |FreeSlots(freed)|
  {
    InWindowIsMessage(scene, i);
    hide Scene.InWindow;
    forall s | s in FreeSlots(freed) ensures after[s] != -1 && after[s] in Waiting(freed, scene, i) {
      assert after[s] in after;
      assert scene.InWindow(after[s]) && after[s] < i;
      InWindowIsMessage(scene, after[s]);
      NewIsNotFreed(freed, after, scene, s);
    }
    AsManyMessages(freed, after);
    forall k | k in TakenUp(freed, after) ensures k in Waiting(freed, scene, i) {}
    SubsetIsSmaller(TakenUp(freed, after), Waiting(freed, scene, i));
  }

  /** Whatever the view showed before: a message of the window that pass 2 left unshown is taken up
      if and only if fewer such messages come before it than there are free slots. */
  lemma TakenUpIffRoom(freed: seq<int>, after: seq<int>, scene: Scene, i: nat)
    requires ShownOnce(freed) && Filled(freed, after, scene, |scene.heights|) && scene.InWindow(i) && i !in freed
    ensures i < |scene.heights| && (i in after <==> |Waiting(freed, scene, i)| < |FreeSlots(freed)|)
  {
    if i in after { TakenUpHasRoom(freed, after, scene, i); } else { LeftOutHadNone(freed, after, scene, i); }
  }

  lemma {:induction false} TopGrows(heights: seq<nat>, i: nat, j: nat)
    requires i <= j <= |heights|
    ensures Top(heights, i) + 58 * (j - i) <= Top(heights, j)
    decreases j - i
  {
    if i < j { TopGrows(heights, i, j - 1); }
  }

  /** Pinned to the bottom, the newest message is in the window. */
  lemma NewestIsInWindow(heights: seq<nat>, visible: nat, scrollNow: int)
    requires heights != []
    ensures PinnedScene(heights, visible, scrollNow, true).InWindow(|heights| - 1)
  {
    TopGrows(heights, 0, |heights| - 1);
  }

  /** Yet it need not be shown: slots fill oldest first, so an unshown newest message stays out
      if and only if more unshown messages of the window wait than slots are free. */
  lemma NewestShownIffRoom(heights: seq<nat>, visible: nat, scrollNow: int, freed: seq<int>, after: seq<int>)
    requires heights != [] && ShownOnce(freed) && |heights| - 1 !in freed
    requires Filled(freed, after, PinnedScene(heights, visible, scrollNow, true), |heights|)
    ensures var scene := PinnedScene(heights, visible, scrollNow, true);
            |heights| - 1 in after <==> |Waiting(freed, scene, |heights|)| <= |FreeSlots(freed)|
  {
    var scene, n := PinnedScene(heights, visible, scrollNow, true), |heights| - 1;
    NewestIsInWindow(heights, visible, scrollNow);
    TakenUpIffRoom(freed, after, scene, n);
    hide Scene.InWindow, Filled;
    assert Waiting(freed, scene, n + 1) == Waiting(freed, scene, n) + {n};
  }

  /** When nothing is shown, all twelve slots are free and the whole window waits. */
  lemma NothingShown(freed: seq<int>, scene: Scene, i: nat)
    requires ShowsNothing(freed) && i <= |scene.heights|
    ensures |FreeSlots(freed)| == POOL_SIZE && Waiting(freed, scene, i) == Window(scene, i)
  {
    hide Scene.InWindow;
    assert FreeSlots(freed) == {0, 1, 2, 3, 4, 5, 6, 7, 8, 9, 10, 11};
  }

  /** A view that showed nothing takes up exactly the first twelve messages of the window. */
  lemma FreshViewShowsFirstTwelve(freed: seq<int>, after: seq<int>, scene: Scene, i: int)
    requires ShowsNothing(freed) && Filled(freed, after, scene, |scene.heights|) && scene.InWindow(i)
    ensures 0 <= i < |scene.heights| && (i in after <==> |Window(scene, i)| < 12)
  {
    InWindowIsMessage(scene, i);
    TakenUpIffRoom(freed, after, scene, i);
    NothingShown(freed, scene, i);
  }

  /** And so its newest message if and only if the window has at most twelve. */
  lemma NewestShownIffTwelve(heights: seq<nat>, visible: nat, scrollNow: int, freed: seq<int>, after: seq<int>)
    requires heights != [] && ShowsNothing(freed)
    requires Filled(freed, after, PinnedScene(heights, visible, scrollNow, true), |heights|)
    ensures var scene := PinnedScene(heights, visible, scrollNow, true);
            |heights| - 1 in after <==> |Window(scene, |heights|)| <= 12
  {
    NewestShownIffRoom(heights, visible, scrollNow, freed, after);
    NothingShown(freed, PinnedScene(heights, visible, scrollNow, true), |heights|);
  }

  function ShortLines(n: nat): (h: seq<nat>)
    ensures |h| == n && forall i :: 0 <= i < n ==> h[i] == 40
  {
    seq(n, _ => 40)
  }

  lemma {:induction false} TopOfShortLines(n: nat, i: nat)
    requires i <= n
    ensures Top(ShortLines(n), i) == 36 + 98 * i
  {
    if i > 0 { TopOfShortLines(n, i - 1); }
  }

  lemma {:induction false} WindowHasAtMin(scene: Scene, a: nat, b: nat)
    requires a <= b <= |scene.heights| && forall i :: a <= i < b ==> scene.InWindow(i)
    ensures |Window(scene, b)| >= b - a
    decreases b - a
  {
    if a < b {
      WindowHasAtMin(scene, a, b - 1);
      assert Window(scene, b) == Window(scene, b - 1) + {b - 1};
    }
  }

  /** It takes no more than twenty one-line notices in a container 918 high. */
  lemma NewestCanMissOut()
    ensures |Window(PinnedScene(ShortLines(20), 918, 0, true), 20)| > 12
  {
    var scene := PinnedScene(ShortLines(20), 918, 0, true);
    TopOfShortLines(20, 20);
    forall i | 7 <= i < 20 ensures scene.InWindow(i) {
      TopOfShortLines(20, i);
    }
    hide Scene.InWindow, PinnedScene;
    WindowHasAtMin(scene, 7, 20);
  }
}
