// What the slot table of main/media_cache.c amounts to over a whole run: a list of
// images, most recently used first, five at most.

module MediaLru {
  import opened Basics
  import opened CString
  import opened MediaCache

  datatype Item = Item(hash: Tick, bytes: seq<Byte>, width: int, height: int)

  datatype Op = Fetch(hash: Tick, now: Tick, d: Download) | Clear

  // ------------------------------------------------------------- the recency list

  function RemoveAt<T>(s: seq<T>, p: nat): seq<T>
    requires p < |s|
  {
    s[..p] + s[p + 1..]
  }

  function Position(l: seq<Item>, hash: Tick): (p: nat)
    ensures p <= |l| && (p < |l| ==> l[p].hash == hash)
    ensures forall i :: 0 <= i < p ==> l[i].hash != hash
  {
    if l == [] || l[0].hash == hash then 0 else 1 + Position(l[1..], hash)
  }

  function NewItem(hash: Tick, d: Download): Item {
    Item(hash, d.Kept(), Dimensions(d.Kept()).0, Dimensions(d.Kept()).1)
  }

  predicate Answers(l: seq<Item>, hash: Tick, d: Download) {
    Position(l, hash) < |l| || d.Kept() != []
  }

  /** A fetch moves a hit to the front; a download goes to the front and pushes out
      the entry of hash 0 if there is one, else the last when all slots are taken. */
  function Access(l: seq<Item>, hash: Tick, d: Download): seq<Item> {
    var p, z := Position(l, hash), Position(l, 0);
    if p < |l| then [l[p]] + RemoveAt(l, p)
    else if d.Kept() == [] then l
    else [NewItem(hash, d)] + if z < |l| then RemoveAt(l, z) else if |l| < SLOTS then l else l[..SLOTS - 1]
  }

  function Model(ops: seq<Op>): seq<Item> {
    if ops == [] then []
    else
      var l, op := Model(ops[..|ops| - 1]), ops[|ops| - 1];
      if op.Clear? then [] else Access(l, op.hash, op.d)
  }

  // ---------------------------------------------------- the table refines the list

  /** `order` lists the occupied slots, most recent first. */
  ghost predicate Ordered(t: seq<Entry>, order: seq<nat>, l: seq<Item>) {
    && |t| == SLOTS && |order| == |l| <= SLOTS
    && (forall k :: 0 <= k < |l| ==> order[k] < |l|)
    && (forall i :: 0 <= i < |l| ==> i in order)
    && (forall j, k :: 0 <= j < k < |l| ==> t[order[j]].tick > t[order[k]].tick)
    && (forall k :: 0 <= k < |l| ==> Stores(t[order[k]], l[k]))
    && (forall j, k :: 0 <= j < k < |l| ==> l[j].hash != l[k].hash)
    && (forall i :: |l| <= i < SLOTS ==> t[i].hash == 0 && t[i].bytes == [])
  }

  predicate Stores(e: Entry, item: Item) {
    item == Item(e.hash, e.bytes, e.width, e.height) && e.bytes != []
  }

  predicate TicksBefore(t: seq<Entry>, now: Tick) {
    forall i :: 0 <= i < |t| && t[i].bytes != [] ==> t[i].tick < now
  }

  /** Where the k-th of [s[p]] + RemoveAt(s, p) comes from. */
  function From(p: nat, k: nat): nat {
    if k == 0 then p else if k <= p then k - 1 else k
  }

  lemma MovedToFront<T>(s: seq<T>, p: nat, first: T, k: nat)
    requires p < |s| && k < |s|
    ensures |[first] + RemoveAt(s, p)| == |s|
    ensures ([first] + RemoveAt(s, p))[k] == if k == 0 then first else s[From(p, k)]
  {
  }

  lemma PromotedRow(t: seq<Entry>, order: seq<nat>, l: seq<Item>, p: nat, e: Entry, item: Item, k: nat)
    requires Ordered(t, order, l) && p < |l| && k < |l|
    requires Stores(e, item)
    requires forall q :: 0 <= q < |l| && q != p ==> l[q].hash != item.hash
    ensures var t', order', l' := t[order[p] := e], [order[p]] + RemoveAt(order, p), [item] + RemoveAt(l, p);
            && |l'| == |l| == |order'| && From(p, k) < |l|
            && order'[k] == order[From(p, k)] && order'[k] < |l|
            && Stores(t'[order'[k]], l'[k])
            && t'[order'[k]].tick == (if k == 0 then e.tick else t[order[From(p, k)]].tick)
            && l'[k].hash == (if k == 0 then item.hash else l[From(p, k)].hash)
            && (k > 0 ==> l'[k].hash != item.hash)
  {
    MovedToFront(order, p, order[p], k);
    MovedToFront(l, p, item, k);
    assert Stores(t[order[From(p, k)]], l[From(p, k)]);
    if k > 0 { assert t[order[From(p, k)]].tick != t[order[p]].tick; }
  }

  /** Putting slot order[p] in front, whatever it now stores. */
  lemma Promote(t: seq<Entry>, order: seq<nat>, l: seq<Item>, p: nat, e: Entry, item: Item)
    requires Ordered(t, order, l) && p < |l|
    requires TicksBefore(t, e.tick) && Stores(e, item)
    requires forall k :: 0 <= k < |l| && k != p ==> l[k].hash != item.hash
    ensures Ordered(t[order[p] := e], [order[p]] + RemoveAt(order, p), [item] + RemoveAt(l, p))
  {
    var t', order', l' := t[order[p] := e], [order[p]] + RemoveAt(order, p), [item] + RemoveAt(l, p);
    MovedToFront(order, p, order[p], 0);
    MovedToFront(l, p, item, 0);
    hide From, RemoveAt, Stores;
    forall k | 0 <= k < |l| ensures order'[k] < |l| && Stores(t'[order'[k]], l'[k]) {
      PromotedRow(t, order, l, p, e, item, k);
    }
    forall j, k | 0 <= j < k < |l| ensures t'[order'[j]].tick > t'[order'[k]].tick && l'[j].hash != l'[k].hash {
      PromotedRow(t, order, l, p, e, item, j);
      PromotedRow(t, order, l, p, e, item, k);
      FromKeepsOrder(p, j, k);
      Occupied(t, order, l, From(p, k));
    }
    forall i | 0 <= i < |l| ensures i in order' {
      assert i in order;
      var k :| 0 <= k < |order| && order[k] == i;
      FromReaches(p, k, |l|);
      var j :| 0 <= j < |l| && From(p, j) == k;
      PromotedRow(t, order, l, p, e, item, j);
    }
  }

  lemma Occupied(t: seq<Entry>, order: seq<nat>, l: seq<Item>, k: nat)
    requires Ordered(t, order, l) && k < |l|
    ensures order[k] < |t| && t[order[k]].bytes != []
  {
    assert Stores(t[order[k]], l[k]);
  }

  lemma FromKeepsOrder(p: nat, j: nat, k: nat)
    requires j < k
    ensures From(p, j) != From(p, k) && From(p, k) != p && (j > 0 ==> From(p, j) < From(p, k))
    ensures From(p, k) <= k && From(p, 0) == p
  {
  }

  lemma FromReaches(p: nat, k: nat, n: nat)
    requires p < n && k < n
    ensures exists j :: 0 <= j < n && From(p, j) == k
  {
    assert From(p, if k == p then 0 else if k < p then k + 1 else k) == k;
  }

  /** Filling the first empty slot. */
  lemma Append(t: seq<Entry>, order: seq<nat>, l: seq<Item>, e: Entry, item: Item)
    requires Ordered(t, order, l) && |l| < SLOTS
    requires TicksBefore(t, e.tick) && Stores(e, item)
    requires forall k :: 0 <= k < |l| ==> l[k].hash != item.hash
    ensures Ordered(t[|l| := e], [|l|] + order, [item] + l)
  {
    var order' := [|l|] + order;
    forall i | 0 <= i < |l| + 1 ensures i in order' {
      if i < |l| { assert i in order; }
    }
  }

  lemma HitsAgree(t: seq<Entry>, order: seq<nat>, l: seq<Item>, hash: Tick)
    requires Ordered(t, order, l)
    ensures Position(l, hash) < |l| ==>
              forall k :: IsHit(t, k, hash) <==> k == order[Position(l, hash)]
    ensures Position(l, hash) == |l| ==> forall k :: !IsHit(t, k, hash)
  {
    var p := Position(l, hash);
    forall k | IsHit(t, k, hash) ensures p < |l| && k == order[p] {
      assert k in order;
      var q :| 0 <= q < |order| && order[q] == k;
      assert Stores(t[order[q]], l[q]);
      assert l[q].hash == hash;
    }
    if p < |l| { assert Stores(t[order[p]], l[p]); }
  }

  lemma VictimAgrees(t: seq<Entry>, order: seq<nat>, l: seq<Item>, k: int)
    requires Ordered(t, order, l) && IsVictim(t, k)
    ensures var z := Position(l, 0);
            if z < |l| then k == order[z] else if |l| < SLOTS then k == |l| else k == order[SLOTS - 1]
  {
    var z := Position(l, 0);
    if z < |l| {
      assert Stores(t[order[z]], l[z]);
    }
    if k < |l| {
      assert k in order;
      var q :| 0 <= q < |order| && order[q] == k;
      assert Stores(t[order[q]], l[q]);
      if z == |l| == SLOTS { assert t[k].tick <= t[order[SLOTS - 1]].tick; }
    }
    if |l| < SLOTS { assert t[|l|].hash == 0; }
  }

  lemma FetchRefines(t: seq<Entry>, t': seq<Entry>, order: seq<nat>, l: seq<Item>, op: Op, k: int) returns (order': seq<nat>)
    requires op.Fetch? && Ordered(t, order, l) && TicksBefore(t, op.now)
    requires Fetches(t, t', op.hash, op.now, op.d, k)
    ensures Ordered(t', order', Access(l, op.hash, op.d))
    ensures k == -1 <==> !Answers(l, op.hash, op.d)
    ensures k != -1 ==> 0 <= k < |t'| && Stores(t'[k], Access(l, op.hash, op.d)[0])
  {
    var p := Position(l, op.hash);
    HitsAgree(t, order, l, op.hash);
    if p < |l| {
      assert IsHit(t, order[p], op.hash);
      assert Stores(t[order[p]], l[p]);
      Promote(t, order, l, p, t'[k], l[p]);
      order' := [order[p]] + RemoveAt(order, p);
    } else if op.d.Kept() == [] {
      order' := order;
    } else {
      VictimAgrees(t, order, l, k);
      var z, e, item := Position(l, 0), NewEntry(op.hash, op.d.Kept(), op.now), NewItem(op.hash, op.d);
      if z == |l| < SLOTS {
        Append(t, order, l, e, item);
        order' := [|l|] + order;
      } else {
        var q := if z < |l| then z else SLOTS - 1;
        Promote(t, order, l, q, e, item);
        assert z == |l| ==> RemoveAt(l, q) == l[..SLOTS - 1];
        order' := [order[q]] + RemoveAt(order, q);
      }
    }
  }

  // ------------------------------------------------------------------ whole runs

  ghost predicate Cleared(t: seq<Entry>, t': seq<Entry>) {
    |t'| == |t| && forall i :: 0 <= i < |t| ==> t'[i] == t[i].(hash := 0, bytes := [], tick := 0)
  }

  ghost predicate Step(t: seq<Entry>, t': seq<Entry>, op: Op) {
    match op
    case Fetch(hash, now, d) => exists k :: Fetches(t, t', hash, now, d, k)
    case Clear => Cleared(t, t')
  }

  /** The tables a run of operations goes through, from the empty cache on. */
  ghost predicate IsRun(ops: seq<Op>, ts: seq<seq<Entry>>) {
    && |ts| == |ops| + 1
    && ts[0] == seq(SLOTS, i => Entry(0, [], 0, 0, 0))
    && forall i :: 0 <= i < |ops| ==> Step(ts[i], ts[i + 1], ops[i])
  }

  /** The clock never stands still between two fetches. */
  predicate TicksIncrease(ops: seq<Op>) {
    forall i, j :: 0 <= i < j < |ops| && ops[i].Fetch? && ops[j].Fetch? ==> ops[i].now < ops[j].now
  }

  function Nows(ops: seq<Op>): set<Tick> {
    set j | 0 <= j < |ops| && ops[j].Fetch? :: ops[j].now
  }

  ghost predicate TicksFrom(t: seq<Entry>, nows: set<Tick>) {
    forall i :: 0 <= i < |t| && t[i].bytes != [] ==> t[i].tick in nows
  }

  lemma {:induction false} RunRefines(ops: seq<Op>, ts: seq<seq<Entry>>) returns (order: seq<nat>)
    requires IsRun(ops, ts) && TicksIncrease(ops)
    ensures Ordered(ts[|ops|], order, Model(ops))
    ensures TicksFrom(ts[|ops|], Nows(ops))
  {
    if ops == [] {
      order := NothingStored(ts[0]);
    } else {
      var n := |ops| - 1;
      RunShortens(ops, ts);
      order := RunRefines(ops[..n], ts[..n + 1]);
      order := OneMoreRefines(ops, ts[n], ts[n + 1], order);
    }
    hide *;
  }

  lemma NothingStored(t: seq<Entry>) returns (order: seq<nat>)
    requires t == seq(SLOTS, i => Entry(0, [], 0, 0, 0))
    ensures Ordered(t, order, Model([])) && TicksFrom(t, Nows([]))
  {
    order := [];
  }

  lemma RunShortens(ops: seq<Op>, ts: seq<seq<Entry>>)
    requires IsRun(ops, ts) && TicksIncrease(ops) && ops != []
    ensures var n := |ops| - 1;
            |ts| == n + 2 && IsRun(ops[..n], ts[..n + 1]) && TicksIncrease(ops[..n]) && Step(ts[n], ts[n + 1], ops[n])
  {
    hide Step;
  }

  lemma OneMoreRefines(ops: seq<Op>, t: seq<Entry>, t': seq<Entry>, order: seq<nat>) returns (order': seq<nat>)
    requires ops != [] && TicksIncrease(ops) && Step(t, t', ops[|ops| - 1])
    requires Ordered(t, order, Model(ops[..|ops| - 1])) && TicksFrom(t, Nows(ops[..|ops| - 1]))
    ensures Ordered(t', order', Model(ops)) && TicksFrom(t', Nows(ops))
  {
    var n := |ops| - 1;
    var l, op := Model(ops[..n]), ops[n];
    StepRefines(ops, n, t, t', order, l);
    assert Model(ops) == if op.Clear? then [] else Access(l, op.hash, op.d);
    if op.Fetch? {
      var k :| Fetches(t, t', op.hash, op.now, op.d, k);
      order' := FetchRefines(t, t', order, l, op, k);
    } else {
      order' := [];
    }
    hide Ordered, TicksFrom, Nows, Access, Model, Fetches;
  }

  lemma StepRefines(ops: seq<Op>, n: nat, t: seq<Entry>, t': seq<Entry>, order: seq<nat>, l: seq<Item>)
    requires |ops| == n + 1 && TicksIncrease(ops) && Step(t, t', ops[n])
    requires Ordered(t, order, l) && TicksFrom(t, Nows(ops[..n]))
    ensures ops[n].Fetch? ==> TicksBefore(t, ops[n].now)
    ensures ops[n].Clear? ==> Ordered(t', [], [])
    ensures TicksFrom(t', Nows(ops))
  {
    forall i | 0 <= i < |t| && t[i].bytes != []
      ensures t[i].tick in Nows(ops) && (ops[n].Fetch? ==> t[i].tick < ops[n].now)
    {
      var j :| 0 <= j < n && ops[..n][j].Fetch? && ops[..n][j].now == t[i].tick;
      assert ops[j] == ops[..n][j];
    }
    if ops[n].Fetch? { assert ops[n].now in Nows(ops); }
  }

  // ------------------------------------------------ most recently used, literally

  function Hashes(l: seq<Item>): seq<Tick> {
    seq(|l|, i requires 0 <= i < |l| => l[i].hash)
  }

  function Without(s: seq<Tick>, h: Tick): (r: seq<Tick>)
    ensures h !in s ==> r == s
  {
    if s == [] then [] else if s[0] == h then Without(s[1..], h) else [s[0]] + Without(s[1..], h)
  }

  /** The distinct hashes answered since the last clear, most recent first. */
  function Recent(ops: seq<Op>): seq<Tick> {
    if ops == [] then []
    else
      var before, op := ops[..|ops| - 1], ops[|ops| - 1];
      if op.Clear? then []
      else if Answers(Model(before), op.hash, op.d) then [op.hash] + Without(Recent(before), op.hash)
      else Recent(before)
  }

  predicate NonZero(ops: seq<Op>) {
    forall op :: op in ops && op.Fetch? ==> op.hash != 0
  }

  function Take(s: seq<Tick>, n: nat): seq<Tick> {
    if |s| <= n then s else s[..n]
  }

  lemma {:induction false} WithoutIsGone(s: seq<Tick>, h: Tick)
    ensures h !in Without(s, h)
    ensures forall x :: x in Without(s, h) ==> x in s
    ensures Distinct(s) ==> Distinct(Without(s, h))
  {
    if s != [] {
      WithoutIsGone(s[1..], h);
      if Distinct(s) && s[0] != h {
        assert Distinct(s[1..]);
        assert s[0] !in s[1..];
      }
    }
  }

  lemma {:induction false} WithoutAt(s: seq<Tick>, p: nat)
    requires p < |s| && Distinct(s)
    ensures Without(s, s[p]) == RemoveAt(s, p)
  {
    assert s == [s[0]] + s[1..];
    assert Distinct(s[1..]);
    if p == 0 {
      assert s[0] !in s[1..];
    } else {
      WithoutAt(s[1..], p - 1);
      assert s[0] != s[p];
    }
  }

  lemma TakeOfFront(recent: seq<Tick>, h: Tick, q: nat)
    requires q < |recent|
    ensures Take([h] + RemoveAt(recent, q), SLOTS) ==
              [h] + if q < SLOTS then RemoveAt(Take(recent, SLOTS), q) else recent[..SLOTS - 1]
  {
  }

  lemma HitKeepsMostRecent(l: seq<Item>, recent: seq<Tick>, p: nat)
    requires Hashes(l) == Take(recent, SLOTS) && Distinct(recent) && p < |l|
    ensures Hashes([l[p]] + RemoveAt(l, p)) == Take([l[p].hash] + Without(recent, l[p].hash), SLOTS)
  {
    var hash := l[p].hash;
    assert Hashes(l)[p] == hash;
    assert recent[p] == hash;
    WithoutAt(recent, p);
    TakeOfFront(recent, hash, p);
    HashesOfFront(l, p);
    hide Hashes, Without, RemoveAt, Take;
  }

  lemma HashesOfFront(l: seq<Item>, p: nat)
    requires p < |l|
    ensures Hashes([l[p]] + RemoveAt(l, p)) == [l[p].hash] + RemoveAt(Hashes(l), p)
  {
    assert Hashes([l[p]] + RemoveAt(l, p)) == [l[p].hash] + Hashes(RemoveAt(l, p));
  }

  lemma MissKeepsMostRecent(l: seq<Item>, recent: seq<Tick>, item: Item)
    requires Hashes(l) == Take(recent, SLOTS) && Distinct(recent) && item.hash !in Hashes(l)
    ensures Hashes([item] + if |l| < SLOTS then l else l[..SLOTS - 1]) ==
              Take([item.hash] + Without(recent, item.hash), SLOTS)
  {
    var rest := if |l| < SLOTS then l else l[..SLOTS - 1];
    assert Hashes([item] + rest) == [item.hash] + Hashes(rest);
    assert Hashes(rest) == Take(recent, SLOTS - 1);
    if item.hash in recent {
      var q :| 0 <= q < |recent| && recent[q] == item.hash;
      WithoutAt(recent, q);
      TakeOfFront(recent, item.hash, q);
    }
  }

  lemma AccessKeepsMostRecent(l: seq<Item>, recent: seq<Tick>, hash: Tick, d: Download)
    requires Hashes(l) == Take(recent, SLOTS) && Distinct(recent) && 0 !in recent
    requires Answers(l, hash, d)
    ensures Hashes(Access(l, hash, d)) == Take([hash] + Without(recent, hash), SLOTS)
  {
    hide Without, RemoveAt, Take, Dimensions, Download.Kept;
    InHashes(l, recent, hash);
    InHashes(l, recent, 0);
    var p := Position(l, hash);
    if p < |l| { HitKeepsMostRecent(l, recent, p); } else { MissKeepsMostRecent(l, recent, NewItem(hash, d)); }
  }

  lemma InHashes(l: seq<Item>, recent: seq<Tick>, hash: Tick)
    requires Hashes(l) == Take(recent, SLOTS)
    ensures Position(l, hash) < |l| <==> hash in Hashes(l)
    ensures hash !in recent ==> hash !in Hashes(l)
  {
    var p := Position(l, hash);
    if p < |l| { assert Hashes(l)[p] == hash; }
  }

  lemma {:induction false} RecentIsModel(ops: seq<Op>)
    requires NonZero(ops)
    ensures Distinct(Recent(ops)) && 0 !in Recent(ops)
    ensures Hashes(Model(ops)) == Take(Recent(ops), 5)
  {
    if ops != [] {
      var before, op := ops[..|ops| - 1], ops[|ops| - 1];
      RecentIsModel(before);
      if op.Fetch? && Answers(Model(before), op.hash, op.d) {
        assert op in ops;
        WithoutIsGone(Recent(before), op.hash);
        AccessKeepsMostRecent(Model(before), Recent(before), op.hash, op.d);
      }
    }
  }

  predicate OccupiedBy(t: seq<Entry>, i: int, h: Tick) {
    0 <= i < |t| && t[i].bytes != [] && t[i].hash == h
  }

  /** The occupied slots of a table that `order` lists are those of its hashes, one each. */
  lemma OrderedHolds(t: seq<Entry>, order: seq<nat>, l: seq<Item>)
    requires Ordered(t, order, l)
    ensures forall h :: (exists i :: OccupiedBy(t, i, h)) <==> h in Hashes(l)
    ensures forall i, j, h :: OccupiedBy(t, i, h) && OccupiedBy(t, j, h) ==> i == j
  {
    forall i, h | OccupiedBy(t, i, h) ensures Position(l, h) < |l| && order[Position(l, h)] == i && h in Hashes(l) {
      HitsAgree(t, order, l, h);
      assert IsHit(t, i, h);
      assert Hashes(l)[Position(l, h)] == h;
    }
    forall h | h in Hashes(l) ensures exists i :: OccupiedBy(t, i, h) {
      var k :| 0 <= k < |l| && Hashes(l)[k] == h;
      assert Stores(t[order[k]], l[k]);
      assert OccupiedBy(t, order[k], h);
    }
  }

  /** After any run the occupied slots hold exactly the most recent distinct hashes
      answered, one slot each. */
  lemma SlotsHoldMostRecent(ops: seq<Op>, ts: seq<seq<Entry>>)
    requires IsRun(ops, ts) && TicksIncrease(ops) && NonZero(ops)
    ensures var t := ts[|ops|];
            && |t| == 5
            && (forall h :: (exists i :: OccupiedBy(t, i, h)) <==> h in Take(Recent(ops), 5))
            && (forall i, j, h :: OccupiedBy(t, i, h) && OccupiedBy(t, j, h) ==> i == j)
  {
    var order := RunRefines(ops, ts);
    RecentIsModel(ops);
    OrderedHolds(ts[|ops|], order, Model(ops));
    hide IsRun, Recent, Take, TicksFrom, OccupiedBy, Hashes;
  }

  predicate OnePerHash(l: seq<Item>) {
    forall i, j :: 0 <= i < j < |l| ==> l[i].hash != l[j].hash
  }

  lemma FrontIsOnePerHash(l: seq<Item>, p: nat, item: Item)
    requires OnePerHash(l) && p < |l| && forall k :: 0 <= k < |l| && k != p ==> l[k].hash != item.hash
    ensures OnePerHash([item] + RemoveAt(l, p))
  {
    var l' := [item] + RemoveAt(l, p);
    forall i, j | 0 <= i < j < |l'| ensures l'[i].hash != l'[j].hash {
      MovedToFront(l, p, item, i);
      MovedToFront(l, p, item, j);
    }
  }

  lemma {:induction false} ModelIsDistinct(ops: seq<Op>)
    ensures OnePerHash(Model(ops))
  {
    if ops != [] {
      var before, op := ops[..|ops| - 1], ops[|ops| - 1];
      ModelIsDistinct(before);
      if op.Fetch? {
        var l := Model(before);
        var p, z := Position(l, op.hash), Position(l, 0);
        if p < |l| { FrontIsOnePerHash(l, p, l[p]); }
        else if z < |l| { FrontIsOnePerHash(l, z, NewItem(op.hash, op.d)); }
        hide RemoveAt, Dimensions, Download.Kept;
      }
    }
  }

  /** A hash of 0 is taken for an empty slot: the next download replaces it at once,
      however recent it is and however many slots are free. */
  lemma ZeroHashIsNotKept(ops: seq<Op>, hash: Tick, now: Tick, d: Download)
    requires hash != 0 && Position(Model(ops), hash) == |Model(ops)| && d.Kept() != []
    ensures Position(Model(ops + [Fetch(hash, now, d)]), 0) == |Model(ops + [Fetch(hash, now, d)])|
  {
    var l, item := Model(ops), NewItem(hash, d);
    assert (ops + [Fetch(hash, now, d)])[..|ops|] == ops;
    ModelIsDistinct(ops);
    var l', z := Access(l, hash, d), Position(l, 0);
    hide Model, Dimensions, Download.Kept, Answers;
    if z < |l| {
      var i := Position(l', 0);
      assert l' == [item] + RemoveAt(l, z);
      if i < |l'| { MovedToFront(l, z, item, i); }
    }
  }

  // ------------------------------------------------------- the bytes that come back

  /** Op i downloaded this image on a miss, and it has been in the cache ever since. */
  ghost predicate KeptSince(ops: seq<Op>, item: Item, i: int) {
    && 0 <= i < |ops| && ops[i].Fetch? && ops[i].hash == item.hash
    && Position(Model(ops[..i]), item.hash) == |Model(ops[..i])|
    && ops[i].d.Kept() != [] && item == NewItem(item.hash, ops[i].d)
    && forall j :: i < j <= |ops| ==> item in Model(ops[..j])
  }

  lemma AccessItems(l: seq<Item>, hash: Tick, d: Download, item: Item)
    requires item in Access(l, hash, d) && item !in l
    ensures Position(l, hash) == |l| && d.Kept() != [] && item == NewItem(hash, d) && item.hash == hash
  {
    hide Dimensions, Download.Kept;
    var p := Position(l, hash);
    var i :| 0 <= i < |Access(l, hash, d)| && Access(l, hash, d)[i] == item;
    if p < |l| { MovedToFront(l, p, l[p], i); }
  }

  lemma {:induction false} EveryImageIsItsDownload(ops: seq<Op>, item: Item)
    requires item in Model(ops)
    ensures exists i :: KeptSince(ops, item, i)
  {
    hide Access, NewItem;
    var n := |ops| - 1;
    var before := ops[..n];
    assert ops[..n + 1] == ops;
    if item in Model(before) {
      EveryImageIsItsDownload(before, item);
      var i :| KeptSince(before, item, i);
      assert before[..i] == ops[..i];
      forall j | i < j <= |ops| ensures item in Model(ops[..j]) {
        if j <= n { assert before[..j] == ops[..j]; }
      }
      assert KeptSince(ops, item, i);
    } else {
      AccessItems(Model(before), ops[n].hash, ops[n].d, item);
      assert KeptSince(ops, item, n);
    }
  }

  function ItemOf(e: Entry): Item {
    Item(e.hash, e.bytes, e.width, e.height)
  }

  lemma OccupiedIsInList(t: seq<Entry>, order: seq<nat>, l: seq<Item>, slot: nat)
    requires Ordered(t, order, l) && slot < |t| && t[slot].bytes != []
    ensures ItemOf(t[slot]) in l
  {
    assert slot in order;
    var k :| 0 <= k < |order| && order[k] == slot;
    assert Stores(t[order[k]], l[k]);
  }

  /** In every run, what an occupied slot stores was downloaded for that hash by a fetch that found
      nothing, and has been in the cache ever since. */
  lemma EverySlotIsItsDownload(ops: seq<Op>, ts: seq<seq<Entry>>, slot: nat)
    requires IsRun(ops, ts) && TicksIncrease(ops)
    requires slot < |ts[|ops|]| && ts[|ops|][slot].bytes != []
    ensures exists i :: KeptSince(ops, ItemOf(ts[|ops|][slot]), i)
  {
    var order := RunRefines(ops, ts);
    OccupiedIsInList(ts[|ops|], order, Model(ops), slot);
    hide *;
    EveryImageIsItsDownload(ops, ItemOf(ts[|ops|][slot]));
  }

  /** And so what a fetch hands out, hit or not: the image some fetch downloaded for the hash asked for. */
  lemma HandedOutIsItsDownload(ops: seq<Op>, ts: seq<seq<Entry>>, k: nat)
    requires IsRun(ops, ts) && TicksIncrease(ops) && ops != [] && ops[|ops| - 1].Fetch?
    requires var n := |ops| - 1; Fetches(ts[n], ts[n + 1], ops[n].hash, ops[n].now, ops[n].d, k)
    ensures k < |ts[|ops|]| && ts[|ops|][k].hash == ops[|ops| - 1].hash
    ensures exists i :: KeptSince(ops, ItemOf(ts[|ops|][k]), i)
  {
    var n := |ops| - 1;
    FetchFills(ts[n], ts[n + 1], ops[n].hash, ops[n].now, ops[n].d, k);
    hide *;
    EverySlotIsItsDownload(ops, ts, k);
  }

  lemma FetchFills(t: seq<Entry>, t': seq<Entry>, hash: Tick, now: Tick, d: Download, k: nat)
    requires Fetches(t, t', hash, now, d, k)
    ensures k < |t'| && t'[k].hash == hash && t'[k].bytes != []
  {
  }
}
