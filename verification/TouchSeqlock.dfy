// The touch-injection seqlock of main/debug_server_input.c, one writer and one
// reader interleaved field by field, and the swipe the writer performs.

module TouchSeqlock {

  datatype Touch = Touch(x: int, y: int, active: bool, pressed: bool)

  const NO_TOUCH := Touch(0, 0, false, false)

  /** `to` with its n-th field taken from `from`: one store, or one load. */
  function CopyField(to: Touch, from: Touch, n: nat): Touch {
    match n
    case 0 => to.(x := from.x)
    case 1 => to.(y := from.y)
    case 2 => to.(active := from.active)
    case _ => to.(pressed := from.pressed)
  }

  datatype Writer = Idle | Writing(v: Touch, stored: nat)

  /** Loop: about to load seq_before.  Copying: that many fields are in the snapshot. */
  datatype Phase = Loop | Copying(copied: nat) | Done

  /** `stamps` notes, for each field of the snapshot, how many stores had been made in all when
      it was loaded; `since` is the last publish that was over when the call began. */
  datatype State = State(
    seqno: nat, shared: Touch,
    writer: Writer, published: seq<Touch>,
    phase: Phase, before: nat, after: nat, snap: Touch, stamps: seq<nat>, since: int)

  /** Nothing published yet but the zeroed state, and the reader at its first load. */
  const INIT := State(0, NO_TOUCH, Idle, [NO_TOUCH], Loop, 0, 0, NO_TOUCH, [], 0)

  /** Publish starts a write, Store is the writer's next store, Load the reader's next
      load, Poll the reader's next call; an action that is not enabled changes nothing. */
  datatype Action = Publish(v: Touch) | Store | Load | Poll

  /** The stores made so far, four to a publish. */
  function Stores(s: State): nat
    requires s.published != []
  {
    4 * (|s.published| - 1) + if s.writer.Writing? then s.writer.stored else 0
  }

  function WriterStep(s: State): State {
    if s.writer.Idle? then s
    else if s.writer.stored < 4 then
      s.(shared := CopyField(s.shared, s.writer.v, s.writer.stored), writer := Writing(s.writer.v, s.writer.stored + 1))
    else s.(seqno := s.seqno + 1, writer := Idle, published := s.published + [s.writer.v])
  }

  /** In the literal loop `continue` goes to the loop test, with seq_after as the
      last pass left it; in the intended one it starts over. */
  function ReaderStep(s: State, literal: bool): State {
    match s.phase
    case Done => s
    case Loop =>
      if s.seqno % 2 == 1 then s.(before := s.seqno, phase := if literal && s.seqno == s.after then Done else Loop)
      else s.(before := s.seqno, phase := Copying(0), stamps := [])
    case Copying(n) =>
      if n < 4 then
        s.(snap := CopyField(s.snap, s.shared, n), phase := Copying(n + 1),
           stamps := s.stamps + [if s.published == [] then 0 else Stores(s)])
      else s.(after := s.seqno, phase := if s.before == s.seqno then Done else Loop)
  }

  function Apply(s: State, a: Action, literal: bool): State {
    match a
    case Publish(v) => if s.writer.Idle? then s.(seqno := s.seqno + 1, writer := Writing(v, 0)) else s
    case Store => WriterStep(s)
    case Load => ReaderStep(s, literal)
    case Poll =>
      if s.phase.Done? then
        s.(phase := Loop, before := 0, after := 0, snap := NO_TOUCH, stamps := [], since := |s.published| - 1)
      else s
  }

  function RunFrom(s: State, actions: seq<Action>, literal: bool): State {
    if actions == [] then s
    else Apply(RunFrom(s, actions[..|actions| - 1], literal), actions[|actions| - 1], literal)
  }

  function Run(actions: seq<Action>, literal: bool): State {
    RunFrom(INIT, actions, literal)
  }

  // ------------------------------------------------------------------- the invariant

  function Last(s: State): Touch
    requires s.published != []
  {
    s.published[|s.published| - 1]
  }

  predicate SameField(a: Touch, b: Touch, n: nat) {
    CopyField(a, b, n) == a
  }

  /** `stored` fields of the shared tuple are those of v, the others still those of the last publish. */
  predicate Halfway(shared: Touch, v: Touch, last: Touch, stored: nat) {
    && SameField(shared, if 0 < stored then v else last, 0) && SameField(shared, if 1 < stored then v else last, 1)
    && SameField(shared, if 2 < stored then v else last, 2) && SameField(shared, if 3 < stored then v else last, 3)
  }

  predicate WriterInv(s: State) {
    && s.published != []
    && match s.writer
       case Idle => s.seqno == 2 * (|s.published| - 1) && s.shared == Last(s)
       case Writing(v, n) => s.seqno == 2 * (|s.published| - 1) + 1 && n <= 4 && Halfway(s.shared, v, Last(s), n)
  }

  /** The publish whose store of field n was the last among the first `stores`. */
  function Source(stores: nat, n: nat): nat
    requires n < 4
  {
    (stores + 3 - n) / 4
  }

  /** With one publish in flight after q others, a field is new if and only if its store was made before its load. */
  lemma SourceIs(q: nat, stored: nat, n: nat)
    requires stored <= 4 && n < 4
    ensures Source(4 * q + stored, n) == if stored > n then q + 1 else q
  {
  }

  /** The tuple of publish k, which may still be under way. */
  predicate HasTuple(s: State, k: nat) {
    k < |s.published| || (k == |s.published| && s.writer.Writing?)
  }

  function Tuple(s: State, k: nat): Touch
    requires HasTuple(s, k)
  {
    if k < |s.published| then s.published[k] else s.writer.v
  }

  /** Field n of the snapshot was loaded after that many stores. */
  predicate LoadedAt(s: State, stamp: nat, n: nat)
    requires n < 4
  {
    && s.published != [] && 4 * s.since <= stamp <= Stores(s)
    && HasTuple(s, Source(stamp, n)) && SameField(s.snap, Tuple(s, Source(stamp, n)), n)
  }

  predicate StampsInv(s: State) {
    |s.stamps| <= 4 && forall n :: 0 <= n < |s.stamps| ==> LoadedAt(s, s.stamps[n], n)
  }

  /** While the sequence word still reads `before`, no store has been made since that load. */
  predicate ReaderInv(s: State) {
    && 0 <= s.since < |s.published| && s.after <= s.seqno
    && match s.phase
       case Loop => s.after % 2 == 1 ==> |s.stamps| == 4
       case Copying(n) =>
         && n <= 4 && |s.stamps| == n && s.before % 2 == 0 && 2 * s.since <= s.before <= s.seqno
         && forall i :: 0 <= i < n ==> s.stamps[i] >= 2 * s.before
       case Done =>
         && |s.stamps| == 4 && s.before <= s.seqno
         && (s.before % 2 == 0 ==> forall i :: 0 <= i < 4 ==> s.stamps[i] == 2 * s.before)
  }

  predicate Inv(s: State) {
    WriterInv(s) && StampsInv(s) && ReaderInv(s)
  }

  lemma PublishKeepsInv(s: State, v: Touch, literal: bool)
    requires Inv(s)
    ensures Inv(Apply(s, Publish(v), literal))
  {
    var s' := Apply(s, Publish(v), literal);
    hide Halfway;
    if s.writer.Idle? {
      assert WriterInv(s') by { NothingStored(s.shared, v); }
      forall n | 0 <= n < |s.stamps| ensures LoadedAt(s', s.stamps[n], n) { assert LoadedAt(s, s.stamps[n], n); }
    }
  }

  lemma NothingStored(shared: Touch, v: Touch)
    ensures Halfway(shared, v, shared, 0)
  {
  }

  lemma OneMoreStored(shared: Touch, v: Touch, last: Touch, stored: nat)
    requires Halfway(shared, v, last, stored)
    ensures stored < 4 ==> Halfway(CopyField(shared, v, stored), v, last, stored + 1)
    ensures stored >= 4 ==> shared == v
  {
  }

  lemma StoreKeepsWriterInv(s: State, literal: bool)
    requires WriterInv(s)
    ensures WriterInv(Apply(s, Store, literal))
  {
    if s.writer.Writing? { OneMoreStored(s.shared, s.writer.v, Last(s), s.writer.stored); }
    hide Halfway, SameField, CopyField;
  }

  lemma StoreKeepsInv(s: State, literal: bool)
    requires Inv(s)
    ensures Inv(Apply(s, Store, literal))
  {
    StoreKeepsWriterInv(s, literal);
    var s' := Apply(s, Store, literal);
    assert Stores(s) <= Stores(s');
    forall n | 0 <= n < |s.stamps| ensures LoadedAt(s', s.stamps[n], n) {
      assert LoadedAt(s, s.stamps[n], n);
    }
    hide Halfway, SameField, CopyField, Source;
  }

  /** What a load of field n finds. */
  lemma SharedFieldIs(s: State, n: nat)
    requires WriterInv(s) && n < 4
    ensures HasTuple(s, Source(Stores(s), n)) && SameField(s.shared, Tuple(s, Source(Stores(s), n)), n)
  {
    SourceIs(|s.published| - 1, if s.writer.Writing? then s.writer.stored else 0, n);
    hide Source, CopyField;
    if s.writer.Writing? { HalfwayField(s.shared, s.writer.v, Last(s), s.writer.stored, n); } else { OwnField(s.shared, n); }
  }

  lemma HalfwayField(shared: Touch, v: Touch, last: Touch, stored: nat, n: nat)
    requires Halfway(shared, v, last, stored) && n < 4
    ensures SameField(shared, if n < stored then v else last, n)
  {
  }

  lemma OwnField(t: Touch, n: nat)
    ensures SameField(t, t, n)
  {
  }

  lemma FieldCopied(snap: Touch, shared: Touch, t: Touch, n: nat, m: nat)
    requires n < 4 && m < 4
    ensures SameField(shared, t, n) ==> SameField(CopyField(snap, shared, n), t, n)
    ensures m != n && SameField(snap, t, m) ==> SameField(CopyField(snap, shared, n), t, m)
  {
  }

  lemma LoadKeepsInv(s: State, literal: bool)
    requires Inv(s)
    ensures Inv(Apply(s, Load, literal))
  {
    var s' := Apply(s, Load, literal);
    if s.phase.Copying? && s.phase.copied < 4 {
      CopyKeepsInv(s, literal, s.phase.copied);
    } else {
      assert forall n :: 0 <= n < |s.stamps| ==> LoadedAt(s, s.stamps[n], n) ==> LoadedAt(s', s.stamps[n], n);
      hide Halfway, SameField, CopyField, Source;
    }
  }

  lemma CopyKeepsInv(s: State, literal: bool, n: nat)
    requires Inv(s) && s.phase == Copying(n) && n < 4
    ensures Inv(Apply(s, Load, literal))
  {
    var s' := Apply(s, Load, literal);
    SharedFieldIs(s, n);
    hide SameField, CopyField, Halfway, Source;
    forall m | 0 <= m < n + 1 ensures LoadedAt(s', s'.stamps[m], m) {
      if m < n {
        assert LoadedAt(s, s.stamps[m], m);
        FieldCopied(s.snap, s.shared, Tuple(s, Source(s.stamps[m], m)), n, m);
      } else {
        FieldCopied(s.snap, s.shared, Tuple(s, Source(Stores(s), n)), n, n);
      }
    }
  }

  lemma StepKeepsInv(s: State, a: Action, literal: bool)
    requires Inv(s)
    ensures Inv(Apply(s, a, literal))
  {
    match a
    case Publish(v) => PublishKeepsInv(s, v, literal);
    case Store => StoreKeepsInv(s, literal);
    case Load => LoadKeepsInv(s, literal);
    case Poll => hide Halfway, SameField, CopyField, Source;
  }

  lemma EvenStaysEven(s: State, a: Action)
    requires s.phase.Done? ==> s.before % 2 == 0
    requires s.phase.Copying? ==> s.before % 2 == 0
    ensures Apply(s, a, false).phase.Done? ==> Apply(s, a, false).before % 2 == 0
  {
  }

  lemma {:induction false} RunKeepsInv(actions: seq<Action>, literal: bool)
    ensures Inv(Run(actions, literal))
    ensures !literal && Run(actions, literal).phase.Done? ==> Run(actions, literal).before % 2 == 0
  {
    if actions != [] {
      var s, a := Run(actions[..|actions| - 1], literal), actions[|actions| - 1];
      RunKeepsInv(actions[..|actions| - 1], literal);
      StepKeepsInv(s, a, literal);
      if !literal { EvenStaysEven(s, a); }
    }
    hide WriterInv, StampsInv, Apply;
  }

  // ------------------------------------------------------------------ what a read returns

  /** The k-th publish, not one that was already over when the call began. */
  predicate ReadsOne(s: State, k: nat) {
    s.since <= k < |s.published| && s.snap == s.published[k]
  }

  lemma FourFields(a: Touch, b: Touch)
    requires SameField(a, b, 0) && SameField(a, b, 1) && SameField(a, b, 2) && SameField(a, b, 3)
    ensures a == b
  {
  }

  /** A pass that ends on the word it began with has read one publish. */
  lemma EvenReadIsWhole(s: State)
    requires Inv(s) && s.phase.Done? && s.before % 2 == 0
    ensures s.before / 2 < |s.published| && ReadsOne(s, s.before / 2)
    ensures forall n :: 0 <= n < 4 ==> Source(s.stamps[n], n) == s.before / 2
  {
    var k := s.before / 2;
    forall n | 0 <= n < 4 ensures Source(s.stamps[n], n) == k && SameField(s.snap, Tuple(s, k), n) && HasTuple(s, k) {
      assert LoadedAt(s, s.stamps[n], n);
      SourceIs(k, 0, n);
    }
    assert LoadedAt(s, s.stamps[0], 0);
    assert 4 * k <= Stores(s);
    FourFields(s.snap, Tuple(s, k));
  }

  /** Whatever the interleaving, a finished read returns one published tuple whole,
      and none older than the last one published when the call began. */
  lemma NoTornReads(actions: seq<Action>)
    ensures var s := Run(actions, false);
            s.phase.Done? ==> exists k :: ReadsOne(s, k)
  {
    RunKeepsInv(actions, false);
    if Run(actions, false).phase.Done? { EvenReadIsWhole(Run(actions, false)); }
  }

  // ------------------------------------------------------------------ that a read returns

  function Loads(actions: seq<Action>): nat {
    if actions == [] then 0
    else Loads(actions[..|actions| - 1]) + if actions[|actions| - 1].Load? then 1 else 0
  }

  /** What a pass that began at s has done after that many loads. */
  predicate Passing(s: State, t: State, loads: nat)
    requires 0 < loads < 6
  {
    t.phase == Copying(loads - 1) && t.before == s.seqno
  }

  lemma {:induction false} PassGoesOn(s: State, actions: seq<Action>, literal: bool)
    requires s.phase.Loop? && s.seqno % 2 == 0 && actions != [] && actions[0].Load?
    requires Loads(actions) < 6
    ensures 0 < Loads(actions) && Passing(s, RunFrom(s, actions, literal), Loads(actions))
  {
    var n := |actions| - 1;
    if n > 0 {
      PassGoesOn(s, actions[..n], literal);
    } else {
      assert actions[..0] == [] && RunFrom(s, [], literal) == s;
    }
    hide CopyField, Stores;
  }

  /** A pass that begins on an even word, in either form of the loop and whatever the writer does
      meanwhile, ends with its sixth load; and with it the read, if and only if the sequence
      word is then what it was at the first.  If not, the reader is where it began. */
  lemma PassEndsTheReadIff(s: State, actions: seq<Action>, literal: bool)
    requires s.phase.Loop? && s.seqno % 2 == 0 && |actions| > 1 && actions[0].Load?
    requires Loads(actions) == 6 && actions[|actions| - 1].Load?
    ensures var t, t' := RunFrom(s, actions[..|actions| - 1], literal), RunFrom(s, actions, literal);
            && (t'.phase.Done? <==> t.seqno == s.seqno)
            && (t'.phase.Loop? <==> t.seqno != s.seqno)
            && t'.before == s.seqno && t'.after == t.seqno
  {
    PassGoesOn(s, actions[..|actions| - 1], literal);
    hide CopyField, Stores;
  }

  /** On an odd word the intended loop tries again; the literal one leaves if its last pass ended on that word. */
  lemma OddWordWaits(s: State, literal: bool)
    requires s.phase.Loop? && s.seqno % 2 == 1
    ensures var t := Apply(s, Load, literal);
            && t.seqno == s.seqno && t.snap == s.snap && t.before == s.seqno
            && (t.phase.Done? <==> literal && s.seqno == s.after) && (t.phase.Loop? <==> !t.phase.Done?)
  {
  }

  lemma FromThere(s: State, p: seq<Action>, q: seq<Action>, literal: bool)
    ensures RunFrom(s, p + q, literal) == RunFrom(RunFrom(s, p, literal), q, literal)
    decreases |q|
  {
    if q == [] {
      assert p + q == p;
    } else {
      assert (p + q)[..|p + q| - 1] == p + q[..|q| - 1];
      FromThere(s, p, q[..|q| - 1], literal);
    }
    hide Apply;
  }

  lemma OneMore(s: State, p: seq<Action>, a: Action, literal: bool) returns (p': seq<Action>)
    ensures p' == p + [a] && RunFrom(s, p', literal) == Apply(RunFrom(s, p, literal), a, literal)
  {
    p' := p + [a];
    assert p'[..|p|] == p;
  }

  const READING: seq<Action> := [Load, Load, Load, Load, Load, Load]
  const STORING: seq<Action> := [Store, Store, Store, Store, Store]

  /** While nothing is being published a read returns after one pass, with the tuple last published. */
  lemma QuietReadReturns(s: State, literal: bool)
    requires Inv(s) && s.phase.Loop? && s.writer.Idle?
    ensures var t := RunFrom(s, READING, literal);
            t.phase.Done? && t.snap == Last(s) && t.published == s.published && t.writer.Idle? && t.since == s.since
  {
    var p := OneMore(s, [], Load, literal);
    p := OneMore(s, p, Load, literal);
    p := OneMore(s, p, Load, literal);
    p := OneMore(s, p, Load, literal);
    p := OneMore(s, p, Load, literal);
    p := OneMore(s, p, Load, literal);
    assert p == READING;
    hide StampsInv;
  }

  /** A publish is over after its five stores, and has then stored the whole tuple. */
  lemma PublishReturns(s: State, v: Touch, literal: bool)
    requires s.writer.Idle?
    ensures var t := RunFrom(s, [Publish(v)] + STORING, literal);
            t == s.(seqno := s.seqno + 2, shared := v, published := s.published + [v])
  {
    var p := OneMore(s, [], Publish(v), literal);
    p := OneMore(s, p, Store, literal);
    p := OneMore(s, p, Store, literal);
    p := OneMore(s, p, Store, literal);
    p := OneMore(s, p, Store, literal);
    p := OneMore(s, p, Store, literal);
    assert p == [Publish(v)] + STORING;
  }

  /** A tuple that is published between two calls is what the next call returns, in either form of the loop. */
  lemma PublishedIsRead(s: State, v: Touch, literal: bool)
    requires Inv(s) && s.phase.Done? && s.writer.Idle?
    ensures var t := RunFrom(s, [Publish(v)] + STORING + [Poll] + READING, literal);
            t.phase.Done? && t.snap == v && t.since == |s.published| && t.published == s.published + [v]
  {
    PublishReturns(s, v, literal);
    var t1 := RunFrom(s, [Publish(v)] + STORING, literal);
    var p := OneMore(s, [Publish(v)] + STORING, Poll, literal);
    var t2 := RunFrom(s, p, literal);
    PublishKeepsRunInv(s, v, literal);
    StepKeepsInv(t1, Poll, literal);
    hide RunFrom, Inv;
    QuietReadReturns(t2, literal);
    FromThere(s, p, READING, literal);
  }

  lemma PublishKeepsRunInv(s: State, v: Touch, literal: bool)
    requires Inv(s)
    ensures Inv(RunFrom(s, [Publish(v)] + STORING, literal))
  {
    var p := [Publish(v)] + STORING;
    var n := 0;
    assert p[..0] == [];
    while n < 6
      invariant n <= 6 && Inv(RunFrom(s, p[..n], literal))
    {
      StepKeepsInv(RunFrom(s, p[..n], literal), p[n], literal);
      assert p[..n + 1][..n] == p[..n];
      n := n + 1;
    }
    assert p[..6] == p;
  }

  // ---------------------------------------------------------------- the literal loop

  /** The next action makes the literal loop leave on an odd word it has seen before. */
  predicate StaleExit(s: State, a: Action) {
    a.Load? && s.phase.Loop? && s.seqno % 2 == 1 && s.seqno == s.after
  }

  predicate NeverStale(actions: seq<Action>) {
    forall i :: 0 <= i < |actions| ==> !StaleExit(Run(actions[..i], true), actions[i])
  }

  lemma {:induction false} SameRunUnlessStale(actions: seq<Action>)
    requires NeverStale(actions)
    ensures Run(actions, true) == Run(actions, false)
  {
    if actions != [] {
      var init := actions[..|actions| - 1];
      assert NeverStale(init) by {
        forall i | 0 <= i < |init| ensures !StaleExit(Run(init[..i], true), init[i]) {
          assert init[..i] == actions[..i];
        }
      }
      SameRunUnlessStale(init);
    }
  }

  /** The literal loop does what is intended on exactly the interleavings in which it
      never meets, mid-publish, the odd word its previous pass ended on. */
  lemma LiteralAgreesIffNeverStale(actions: seq<Action>)
    ensures (forall i :: 0 <= i <= |actions| ==> Run(actions[..i], true) == Run(actions[..i], false)) <==> NeverStale(actions)
  {
    if NeverStale(actions) {
      forall i | 0 <= i <= |actions| ensures Run(actions[..i], true) == Run(actions[..i], false) {
        assert NeverStale(actions[..i]) by {
          forall j | 0 <= j < i ensures !StaleExit(Run(actions[..i][..j], true), actions[..i][j]) {
            assert actions[..i][..j] == actions[..j];
          }
        }
        SameRunUnlessStale(actions[..i]);
      }
    } else {
      var i :| 0 <= i < |actions| && StaleExit(Run(actions[..i], true), actions[i]);
      assert actions[..i + 1][..i] == actions[..i];
      assert Run(actions[..i], true) == Run(actions[..i], false) ==>
               Run(actions[..i + 1], true) != Run(actions[..i + 1], false);
    }
  }

  /** The read left the loop on the word it began with, not on a stale one. */
  lemma NotStaleIsWhole(actions: seq<Action>)
    ensures var s := Run(actions, true);
            s.phase.Done? && s.before % 2 == 0 ==> ReadsOne(s, s.before / 2) && |s.stamps| == 4 && SourcesAgree(s)
  {
    RunKeepsInv(actions, true);
    var s := Run(actions, true);
    if s.phase.Done? && s.before % 2 == 0 { EvenReadIsWhole(s); }
  }

  /** Each field of a finished read, torn or not, is that of the publish whose store of it was
      the last before its load: one not older than the call, at worst one still under way. */
  lemma FieldsComeFrom(actions: seq<Action>, literal: bool, n: nat)
    requires n < 4
    ensures var s := Run(actions, literal);
            s.phase.Done? ==>
              && |s.stamps| == 4 && s.since <= Source(s.stamps[n], n)
              && HasTuple(s, Source(s.stamps[n], n)) && SameField(s.snap, Tuple(s, Source(s.stamps[n], n)), n)
  {
    RunKeepsInv(actions, literal);
    var s := Run(actions, literal);
    assert s.phase.Done? ==> LoadedAt(s, s.stamps[n], n);
  }

  predicate SourcesAgree(s: State)
    requires |s.stamps| == 4
  {
    Source(s.stamps[0], 0) == Source(s.stamps[1], 1) == Source(s.stamps[2], 2) == Source(s.stamps[3], 3)
  }

  /** While q publishes are over and one more is in flight, of which c0 to c3 stores had been
      made at the four loads: the sources agree if and only if every field was loaded after
      its store, or every field before it. */
  lemma OneInFlight(s: State, q: nat, c0: nat, c1: nat, c2: nat, c3: nat)
    requires c0 <= 4 && c1 <= 4 && c2 <= 4 && c3 <= 4
    requires s.stamps == [4 * q + c0, 4 * q + c1, 4 * q + c2, 4 * q + c3]
    ensures SourcesAgree(s) <==>
              (c0 > 0 && c1 > 1 && c2 > 2 && c3 > 3) || (c0 <= 0 && c1 <= 1 && c2 <= 2 && c3 <= 3)
  {
    hide Source;
    SourceIs(q, c0, 0);
    SourceIs(q, c1, 1);
    SourceIs(q, c2, 2);
    SourceIs(q, c3, 3);
  }

  /** The result is what one single publish wrote, be it still under way. */
  predicate ReadsTuple(s: State, k: nat) {
    s.since <= k && HasTuple(s, k) && s.snap == Tuple(s, k)
  }

  ghost predicate Whole(s: State) {
    exists k :: ReadsTuple(s, k)
  }

  lemma AgreeingIsWhole(s: State)
    requires Inv(s) && s.phase.Done? && SourcesAgree(s)
    ensures Whole(s)
  {
    var k := Source(s.stamps[0], 0);
    forall n | 0 <= n < 4 ensures HasTuple(s, k) && SameField(s.snap, Tuple(s, k), n) && s.since <= k {
      assert LoadedAt(s, s.stamps[n], n);
    }
    FourFields(s.snap, Tuple(s, k));
    assert ReadsTuple(s, k);
  }

  /** The same interleaving with other tuples: the k-th publish writes f(k). */
  function Relabel(actions: seq<Action>, f: nat -> Touch): seq<Action> {
    if actions == [] then []
    else
      var init, a := actions[..|actions| - 1], actions[|actions| - 1];
      Relabel(init, f) + [if a.Publish? then Publish(f(|Run(init, true).published|)) else a]
  }

  /** Two runs that differ in the tuples only, the second one's being those of f. */
  predicate Lockstep(s: State, t: State, f: nat -> Touch) {
    && t.seqno == s.seqno && t.phase == s.phase && t.before == s.before && t.after == s.after
    && t.stamps == s.stamps && t.since == s.since && |t.published| == |s.published|
    && t.writer == (if s.writer.Idle? then Idle else Writing(f(|s.published|), s.writer.stored))
    && s.published != [] && t.published[0] == NO_TOUCH
    && forall k :: 0 < k < |t.published| ==> t.published[k] == f(k)
  }

  lemma StepsInLock(s: State, t: State, f: nat -> Touch, a: Action)
    requires Lockstep(s, t, f)
    ensures Lockstep(Apply(s, a, true), Apply(t, if a.Publish? then Publish(f(|s.published|)) else a, true), f)
  {
  }

  lemma {:induction false} RelabelledRun(actions: seq<Action>, f: nat -> Touch)
    ensures Lockstep(Run(actions, true), Run(Relabel(actions, f), true), f)
  {
    if actions != [] {
      var init, a := actions[..|actions| - 1], actions[|actions| - 1];
      var s, t := Run(init, true), Run(Relabel(init, f), true);
      RelabelledRun(init, f);
      StepsInLock(s, t, f, a);
      RunOneMore(Relabel(init, f), if a.Publish? then Publish(f(|s.published|)) else a, true);
    }
    hide Lockstep, Apply;
  }

  /** Tuples that tell publish k2 from all others by `active`, k3 by `pressed`, and each from each by x and y. */
  function Telling(k2: nat, k3: nat): nat -> Touch {
    (k: nat) => Touch(k, k, k2 == 0 || k == k2, k3 == 0 || k == k3)
  }

  lemma TellsThemApart(t: State, k2: nat, k3: nat, k: nat, j: nat)
    requires Lockstep(t, t, Telling(k2, k3)) && HasTuple(t, k) && HasTuple(t, j)
    ensures Tuple(t, k).x == k && Tuple(t, k).y == k
    ensures j == k2 ==> (Tuple(t, k).active == Tuple(t, j).active <==> k == j)
    ensures j == k3 ==> (Tuple(t, k).pressed == Tuple(t, j).pressed <==> k == j)
  {
  }

  lemma DisagreeingTears(t: State, k2: nat, k3: nat)
    requires Inv(t) && t.phase.Done? && Lockstep(t, t, Telling(k2, k3))
    requires k2 == Source(t.stamps[2], 2) && k3 == Source(t.stamps[3], 3) && Whole(t)
    ensures SourcesAgree(t)
  {
    var k :| ReadsTuple(t, k);
    forall n | 0 <= n < 4
      ensures HasTuple(t, Source(t.stamps[n], n)) && SameField(Tuple(t, k), Tuple(t, Source(t.stamps[n], n)), n)
    {
      assert LoadedAt(t, t.stamps[n], n);
    }
    TellsThemApart(t, k2, k3, k, k2);
    TellsThemApart(t, k2, k3, k, k3);
    TellsThemApart(t, k2, k3, Source(t.stamps[0], 0), k2);
    TellsThemApart(t, k2, k3, Source(t.stamps[1], 1), k2);
    hide Source, Lockstep, Tuple, LoadedAt;
  }

  lemma LockstepWithItself(s: State, t: State, f: nat -> Touch)
    requires Lockstep(s, t, f)
    ensures Lockstep(t, t, f)
  {
  }

  /** An interleaving in which the literal loop finishes a read never tears it, whatever tuples
      are published, if and only if its four fields were loaded from one publish. */
  lemma LiteralWholeIffSourcesAgree(actions: seq<Action>)
    requires Run(actions, true).phase.Done?
    ensures |Run(actions, true).stamps| == 4
    ensures SourcesAgree(Run(actions, true)) <==> forall f: nat -> Touch :: Whole(Run(Relabel(actions, f), true))
  {
    var s := Run(actions, true);
    RunKeepsInv(actions, true);
    if SourcesAgree(s) {
      forall f: nat -> Touch ensures Whole(Run(Relabel(actions, f), true)) {
        RelabelledRun(actions, f);
        RunKeepsInv(Relabel(actions, f), true);
        AgreeingIsWhole(Run(Relabel(actions, f), true));
      }
    } else {
      var k2, k3 := Source(s.stamps[2], 2), Source(s.stamps[3], 3);
      var f := Telling(k2, k3);
      var t := Run(Relabel(actions, f), true);
      RelabelledRun(actions, f);
      RunKeepsInv(Relabel(actions, f), true);
      LockstepWithItself(s, t, f);
      if Whole(t) { DisagreeingTears(t, k2, k3); }
    }
    hide Whole, Inv, Run, Lockstep;
  }

  lemma RunOneMore(actions: seq<Action>, a: Action, literal: bool)
    ensures Run(actions + [a], literal) == Apply(Run(actions, literal), a, literal)
  {
    assert (actions + [a])[..|actions|] == actions;
  }

  const PRESS := Touch(1, 2, true, true)

  /** The reader copies x, the writer stores x, y and active, the reader copies the
      rest and finds the word odd; it is still odd when it looks again. */
  const TEARING: seq<Action> := [Load, Load, Publish(PRESS), Store, Store, Store, Load, Load, Load, Load, Load]

  /** The literal loop can return a tuple that was never published. */
  lemma LiteralCanTear()
    ensures var s := Run(TEARING, true);
            && s.phase.Done? && s.snap == Touch(0, 2, true, false)
            && s.published == [NO_TOUCH] && s.writer.Writing? && s.writer.v == PRESS
            && s.stamps == [0, 3, 3, 3]
    ensures Run(TEARING, false).phase.Loop?
  {
    var s := State(
      1, Touch(1, 2, true, false), Writing(PRESS, 3), [NO_TOUCH],
      Loop, 0, 1, Touch(0, 2, true, false), [0, 3, 3, 3], 0);
    forall literal ensures Run(TEARING, literal) == Apply(s, Load, literal) {
      var p := RunCopyOne(literal);
      RunOneMore(p, Load, literal);
      RunOneMore(p + [Load], Load, literal);
      RunOneMore(p + [Load] + [Load], Load, literal);
      RunOneMore(p + [Load] + [Load] + [Load], Load, literal);
      RunOneMore(p + [Load] + [Load] + [Load] + [Load], Load, literal);
      assert TEARING == p + [Load] + [Load] + [Load] + [Load] + [Load];
    }
  }

  lemma RunCopyOne(literal: bool) returns (p: seq<Action>)
    ensures p == [Load, Load, Publish(PRESS), Store, Store, Store]
    ensures Run(p, literal) ==
              State(1, Touch(1, 2, true, false), Writing(PRESS, 3), [NO_TOUCH], Copying(1), 0, 0, NO_TOUCH, [0], 0)
  {
    RunOneMore([], Load, literal);
    RunOneMore([] + [Load], Load, literal);
    RunOneMore([] + [Load] + [Load], Publish(PRESS), literal);
    RunOneMore([] + [Load] + [Load] + [Publish(PRESS)], Store, literal);
    RunOneMore([] + [Load] + [Load] + [Publish(PRESS)] + [Store], Store, literal);
    RunOneMore([] + [Load] + [Load] + [Publish(PRESS)] + [Store] + [Store], Store, literal);
    p := [] + [Load] + [Load] + [Publish(PRESS)] + [Store] + [Store] + [Store];
  }

  /** The reader copies everything before the write starts, and then leaves on its odd word. */
  const STALE: seq<Action> := [Load, Load, Load, Load, Load, Publish(PRESS), Load, Load]

  /** Leaving on a stale word is no harm by itself: this read is whole. */
  lemma StaleCanBeWhole()
    ensures var s := Run(STALE, true);
            && s.phase.Done? && s.before % 2 == 1 && s.stamps == [0, 0, 0, 0] && SourcesAgree(s) && ReadsOne(s, 0)
  {
    hide Run, RunFrom;
    NothingRun();
    var s0, s1 := INIT.(phase := Copying(0)), INIT.(phase := Copying(1), stamps := [0]);
    var s2, s3 := s1.(phase := Copying(2), stamps := [0, 0]), s1.(phase := Copying(3), stamps := [0, 0, 0]);
    var s4 := s1.(phase := Copying(4), stamps := [0, 0, 0, 0]);
    var s5 := s4.(seqno := 1, writer := Writing(PRESS, 0));
    var s6 := s5.(phase := Loop, after := 1);
    var p := RunMore([], INIT, Load, s0);
    p := RunMore(p, s0, Load, s1);
    p := RunMore(p, s1, Load, s2);
    p := RunMore(p, s2, Load, s3);
    p := RunMore(p, s3, Load, s4);
    p := RunMore(p, s4, Publish(PRESS), s5);
    p := RunMore(p, s5, Load, s6);
    p := RunMore(p, s6, Load, s6.(phase := Done, before := 1));
    assert p == STALE;
  }

  lemma NothingRun()
    ensures Run([], true) == INIT
  {
  }

  lemma RunMore(p: seq<Action>, t: State, a: Action, s: State) returns (p': seq<Action>)
    requires Run(p, true) == t && Apply(t, a, true) == s
    ensures p' == p + [a] && Run(p', true) == s
  {
    p' := p + [a];
    RunOneMore(p, a, true);
  }
}
