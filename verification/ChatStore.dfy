// The chat message ring: main/chat_msg_store.c.  Whatever mix of calls is made, it is
// a sequence that drops its oldest message when it is full.

module ChatStore {

  const MAX_MESSAGES: nat := 100
  const TEXT_LEN: nat := 512
  const MODEL_SHORT_LEN: nat := 16

  datatype Kind = Text | Image | Card | AudioClip | System

  datatype Receipt = Receipt(mils: nat, promptTokens: nat, completionTokens: nat, model: string, retried: bool)

  const NO_RECEIPT := Receipt(0, 0, 0, "", false)

  datatype Message = Message(
    kind: Kind, isUser: bool, text: string, mediaUrl: string, subtitle: string, timestamp: nat,
    height: int, active: bool, receipt: Receipt, cardId: string, actionLabel: string, actionEvent: string)

  const BLANK := Message(Text, false, "", "", "", 0, 0, false, NO_RECEIPT, "", "", "")

  datatype Session = NoSession | Session(id: string, mode: nat, llmModel: string, title: string, updatedAt: nat)

  /** copy_str into an array of that size. */
  function CopyStr(src: string, size: nat): (r: string)
    requires size > 0
    ensures |r| < size && r <= src
  {
    if |src| < size then src else src[..size - 1]
  }

  // ------------------------------------------------------------------- the sequence

  /** What is kept, how many messages have been dropped from a full ring, and the session. */
  datatype Model = Model(msgs: seq<Message>, drops: nat, session: Session)

  function Stored(m: Message): Message {
    m.(active := true, height := if m.height == 0 then -1 else m.height)
  }

  function AddTo(s: Model, m: Message): Model {
    if |s.msgs| < MAX_MESSAGES then s.(msgs := s.msgs + [Stored(m)])
    else s.(msgs := s.msgs[1..] + [Stored(m)], drops := s.drops + 1)
  }

  function PopFrom(s: Model): Model {
    if s.msgs == [] then s else s.(msgs := s.msgs[..|s.msgs| - 1])
  }

  predicate IsAnswer(m: Message) {
    m.active && !m.isUser && m.kind == Text
  }

  /** The newest assistant text among the first n, or -1. */
  function NewestAnswer(msgs: seq<Message>, n: nat): (i: int)
    requires n <= |msgs|
    ensures -1 <= i < n
    ensures i >= 0 ==> IsAnswer(msgs[i])
    ensures forall k :: i < k < n ==> !IsAnswer(msgs[k])
  {
    if n == 0 then -1 else if IsAnswer(msgs[n - 1]) then n - 1 else NewestAnswer(msgs, n - 1)
  }

  function WithReceipt(m: Message, r: Receipt): Message {
    m.(receipt := r.(model := CopyStr(r.model, MODEL_SHORT_LEN)), height := -1)
  }

  function Attach(s: Model, r: Receipt): Model {
    var i := NewestAnswer(s.msgs, |s.msgs|);
    if i < 0 then s else s.(msgs := s.msgs[i := WithReceipt(s.msgs[i], r)])
  }

  function UpdateLast(s: Model, text: string): Model {
    if s.msgs == [] then s
    else
      var i := |s.msgs| - 1;
      s.(msgs := s.msgs[i := s.msgs[i].(text := CopyStr(text, TEXT_LEN), height := -1)])
  }

  function SetHeightOf(s: Model, i: int, h: int): Model {
    if 0 <= i < |s.msgs| then s.(msgs := s.msgs[i := s.msgs[i].(height := h)]) else s
  }

  /** The messages go only when one session gives way to another or is closed. */
  predicate Wipes(before: Session, after: Session) {
    after.NoSession? || (before.Session? && before.id != after.id)
  }

  function SetSessionOf(s: Model, to: Session): Model {
    s.(session := to, msgs := if Wipes(s.session, to) then [] else s.msgs)
  }

  // ----------------------------------------------------------------------- the ring

  /** Where message i of `count` is, when the next one goes to writeIdx. */
  function Place(writeIdx: nat, count: nat, i: nat): (p: nat)
    requires writeIdx < MAX_MESSAGES && i < count <= MAX_MESSAGES
    ensures p < MAX_MESSAGES
  {
    ((writeIdx - count + MAX_MESSAGES) % MAX_MESSAGES + i) % MAX_MESSAGES
  }

  lemma PlaceIs(w: nat, c: nat, i: nat)
    requires w < MAX_MESSAGES && i < c <= MAX_MESSAGES
    ensures Place(w, c, i) == if w + i < c then w - c + i + MAX_MESSAGES else w - c + i
  {
  }

  lemma PlacesDiffer(w: nat, c: nat)
    requires w < MAX_MESSAGES && c <= MAX_MESSAGES
    ensures forall i, j :: 0 <= i < j < c ==> Place(w, c, i) != Place(w, c, j)
  {
    hide Place;
    forall i, j | 0 <= i < j < c ensures Place(w, c, i) != Place(w, c, j) {
      PlaceIs(w, c, i);
      PlaceIs(w, c, j);
    }
  }

  function Next(w: nat): (r: nat)
    ensures r < MAX_MESSAGES
  {
    (w + 1) % MAX_MESSAGES
  }

  lemma NextIs(w: nat)
    requires w < MAX_MESSAGES
    ensures Next(w) == if w + 1 == MAX_MESSAGES then 0 else w + 1
  {
  }

  /** Adding to a ring with room moves no message. */
  lemma AddingMovesNothing(w: nat, c: nat)
    requires w < MAX_MESSAGES && c < MAX_MESSAGES
    ensures Place(Next(w), c + 1, c) == w
    ensures forall i :: 0 <= i < c ==> Place(Next(w), c + 1, i) == Place(w, c, i) != w
  {
    hide Place, Next;
    NextIs(w);
    PlaceIs(Next(w), c + 1, c);
    forall i | 0 <= i < c ensures Place(Next(w), c + 1, i) == Place(w, c, i) != w {
      PlaceIs(w, c, i);
      PlaceIs(Next(w), c + 1, i);
    }
  }

  /** Adding to a full ring overwrites exactly the oldest message and moves no other. */
  lemma EvictingMovesNothing(w: nat, i: nat)
    requires w < MAX_MESSAGES && i < MAX_MESSAGES
    ensures Place(w, MAX_MESSAGES, 0) == w == Place(Next(w), MAX_MESSAGES, MAX_MESSAGES - 1)
    ensures i < MAX_MESSAGES - 1 ==> Place(Next(w), MAX_MESSAGES, i) == Place(w, MAX_MESSAGES, i + 1) != w
  {
    hide Place, Next;
    NextIs(w);
    PlaceIs(w, MAX_MESSAGES, 0);
    PlaceIs(Next(w), MAX_MESSAGES, MAX_MESSAGES - 1);
    PlaceIs(Next(w), MAX_MESSAGES, i);
    if i < MAX_MESSAGES - 1 { PlaceIs(w, MAX_MESSAGES, i + 1); }
  }

  lemma PoppingMovesNothing(w: nat, c: nat)
    requires w < MAX_MESSAGES && 0 < c <= MAX_MESSAGES
    ensures var last := (w - 1 + MAX_MESSAGES) % MAX_MESSAGES;
            && Place(w, c, c - 1) == last
            && forall i :: 0 <= i < c - 1 ==> Place(last, c - 1, i) == Place(w, c, i) != last
  {
    var last := (w - 1 + MAX_MESSAGES) % MAX_MESSAGES;
    assert last == if w == 0 then MAX_MESSAGES - 1 else w - 1;
    hide Place;
    PlaceIs(w, c, c - 1);
    forall i | 0 <= i < c - 1 ensures Place(last, c - 1, i) == Place(w, c, i) != last {
      PlaceIs(w, c, i);
      PlaceIs(last, c - 1, i);
    }
  }

  /** What a ring holds, oldest first. */
  function Contents(ring: seq<Message>, w: nat, c: nat): (r: seq<Message>)
    requires |ring| == MAX_MESSAGES && w < MAX_MESSAGES && c <= MAX_MESSAGES
    ensures |r| == c && forall i :: 0 <= i < c ==> r[i] == ring[Place(w, c, i)]
  {
    seq(c, i requires 0 <= i < c => ring[Place(w, c, i)])
  }

  lemma ContentsAdded(ring: seq<Message>, w: nat, c: nat, m: Message)
    requires |ring| == MAX_MESSAGES && w < MAX_MESSAGES && c < MAX_MESSAGES
    ensures Contents(ring[w := m], Next(w), c + 1) == Contents(ring, w, c) + [m]
  {
    AddingMovesNothing(w, c);
    hide Place, Next;
  }

  lemma ContentsEvicted(ring: seq<Message>, w: nat, m: Message)
    requires |ring| == MAX_MESSAGES && w < MAX_MESSAGES
    ensures Contents(ring[w := m], Next(w), MAX_MESSAGES) == Contents(ring, w, MAX_MESSAGES)[1..] + [m]
  {
    EvictingMovesNothing(w, 0);
    var before, after := Contents(ring, w, MAX_MESSAGES), Contents(ring[w := m], Next(w), MAX_MESSAGES);
    hide Place, Next;
    forall i: nat | i < MAX_MESSAGES - 1 ensures after[i] == before[i + 1] {
      EvictingMovesNothing(w, i);
    }
    assert after == before[1..] + [m];
  }

  lemma ContentsPopped(ring: seq<Message>, w: nat, c: nat, m: Message)
    requires |ring| == MAX_MESSAGES && w < MAX_MESSAGES && 0 < c <= MAX_MESSAGES
    ensures var last := (w - 1 + MAX_MESSAGES) % MAX_MESSAGES;
            Contents(ring[last := m], last, c - 1) == Contents(ring, w, c)[..c - 1]
  {
    PoppingMovesNothing(w, c);
    hide Place;
  }

  lemma ContentsWritten(ring: seq<Message>, w: nat, c: nat, i: nat, m: Message)
    requires |ring| == MAX_MESSAGES && w < MAX_MESSAGES && i < c <= MAX_MESSAGES
    ensures Contents(ring[Place(w, c, i) := m], w, c) == Contents(ring, w, c)[i := m]
  {
    PlacesDiffer(w, c);
    hide Place;
  }

  class Store {
    const msgs: array<Message>
    var count: nat
    var writeIdx: nat
    var evictions: nat
    var session: Session
    ghost var drops: nat

    ghost predicate Valid()
      reads this
    {
      msgs.Length == MAX_MESSAGES && count <= MAX_MESSAGES && writeIdx < MAX_MESSAGES
      && evictions == drops % 0x1_0000_0000
    }

    ghost function Value(): Model
      requires Valid()
      reads this, msgs
    {
      Model(Contents(msgs[..], writeIdx, count), drops, session)
    }

    constructor ()
      ensures Valid() && fresh(msgs) && Value() == Model([], 0, NoSession)
    {
      msgs := new Message[MAX_MESSAGES](_ => BLANK);
      count, writeIdx, evictions, drops, session := 0, 0, 0, 0, NoSession;
    }

    /** Fills a slot: the message becomes active, and its height unknown unless given. */
    method Write(slot: nat, m: Message)
      requires slot < msgs.Length
      modifies msgs
      ensures msgs[..] == old(msgs[..])[slot := Stored(m)]
    {
      msgs[slot] := m;
      msgs[slot] := msgs[slot].(active := true);
      if msgs[slot].height == 0 { msgs[slot] := msgs[slot].(height := -1); }
    }

    method Add(m: Message) returns (index: int)
      requires Valid()
      modifies this, msgs
      ensures Valid() && Value() == AddTo(old(Value()), m) && index == |Value().msgs| - 1
    {
      ghost var ring := msgs[..];
      var slot := writeIdx;
      if count < MAX_MESSAGES {
        ContentsAdded(ring, slot, count, Stored(m));
        count := count + 1;
      } else {
        ContentsEvicted(ring, slot, Stored(m));
        evictions := (evictions + 1) % 0x1_0000_0000;
        drops := drops + 1;
      }
      hide Contents, Next, Stored;
      writeIdx := Next(writeIdx);
      Write(slot, m);
      return count - 1;
    }

    /** logical_to_real, -1 when there is no such message. */
    method LogicalToReal(index: int) returns (slot: int)
      requires Valid()
      ensures slot == if 0 <= index < count then Place(writeIdx, count, index) else -1
    {
      if index < 0 || index >= count { return -1; }
      var start := (writeIdx - count + MAX_MESSAGES) % MAX_MESSAGES;
      return (start + index) % MAX_MESSAGES;
    }

    method Get(index: int) returns (found: bool, m: Message)
      requires Valid()
      ensures found == (0 <= index < |Value().msgs|) && (found ==> m == Value().msgs[index])
    {
      var slot := LogicalToReal(index);
      if slot < 0 { return false, BLANK; }
      return true, msgs[slot];
    }

    /** A write to the message that chat_store_get_mut hands out. */
    method Put(index: int, m: Message)
      requires Valid() && 0 <= index < |Value().msgs|
      modifies msgs
      ensures Value() == old(Value()).(msgs := old(Value()).msgs[index := m])
    {
      ContentsWritten(msgs[..], writeIdx, count, index, m);
      hide Place, Contents;
      var slot := LogicalToReal(index);
      ghost var ring := msgs[..];
      msgs[slot] := m;
      assert msgs[..] == ring[slot := m];
    }

    method SetHeight(index: int, h: int) returns (ok: bool)
      requires Valid()
      modifies msgs
      ensures Value() == SetHeightOf(old(Value()), index, h) && ok == (0 <= index < |old(Value()).msgs|)
    {
      var found, m := Get(index);
      if !found { return false; }
      Put(index, m.(height := h));
      return true;
    }

    method UpdateLastText(text: string) returns (ok: bool)
      requires Valid()
      modifies msgs
      ensures Value() == UpdateLast(old(Value()), text) && ok == (old(Value()).msgs != [])
    {
      var found, m := Get(count - 1);
      if !found { return false; }
      Put(count - 1, m.(text := CopyStr(text, TEXT_LEN), height := -1));
      return true;
    }

    method AttachReceipt(r: Receipt) returns (index: int)
      requires Valid()
      modifies msgs
      ensures Value() == Attach(old(Value()), r) && index == NewestAnswer(old(Value()).msgs, |old(Value()).msgs|)
    {
      ghost var before := Value().msgs;
      hide Place;
      var i := count - 1;
      while i >= 0
        invariant -1 <= i < count && Value() == old(Value())
        invariant NewestAnswer(before, count) == NewestAnswer(before, i + 1)
      {
        var found, m := Get(i);
        if found && m.active && !m.isUser && m.kind == Text {
          var model := CopyStr(r.model, MODEL_SHORT_LEN);
          Put(i, m.(receipt := Receipt(r.mils, r.promptTokens, r.completionTokens, model, r.retried), height := -1));
          return i;
        }
        i := i - 1;
      }
      return -1;
    }

    method PopLast() returns (ok: bool)
      requires Valid()
      modifies this, msgs
      ensures Valid() && Value() == PopFrom(old(Value())) && ok == (old(Value()).msgs != [])
    {
      if count == 0 { return false; }
      ghost var ring := msgs[..];
      ContentsPopped(ring, writeIdx, count, BLANK);
      hide Contents;
      var slot := (writeIdx - 1 + MAX_MESSAGES) % MAX_MESSAGES;
      msgs[slot] := BLANK;
      assert msgs[..] == ring[slot := BLANK];
      writeIdx := slot;
      count := count - 1;
      return true;
    }

    method Clear()
      requires Valid()
      modifies this, msgs
      ensures Valid() && Value() == old(Value()).(msgs := [])
    {
      forall i | 0 <= i < msgs.Length { msgs[i] := BLANK; }
      count, writeIdx := 0, 0;
    }

    method SetSession(to: Session)
      requires Valid()
      modifies this, msgs
      ensures Valid() && Value() == SetSessionOf(old(Value()), to)
    {
      hide Place;
      if to.NoSession? {
        session := NoSession;
        Clear();
        return;
      }
      var differs := session.Session? && session.id != to.id;
      session := to;
      if differs { Clear(); }
    }
  }

  // --------------------------------------------------------------------- whole runs

  datatype Op =
    | Adding(m: Message) | Popping | Clearing | Updating(text: string)
    | Attaching(r: Receipt) | Measuring(i: int, h: int) | Switching(to: Session)

  function Do(s: Model, op: Op): Model {
    match op
    case Adding(m) => AddTo(s, m)
    case Popping => PopFrom(s)
    case Clearing => s.(msgs := [])
    case Updating(text) => UpdateLast(s, text)
    case Attaching(r) => Attach(s, r)
    case Measuring(i, h) => SetHeightOf(s, i, h)
    case Switching(to) => SetSessionOf(s, to)
  }

  function Run(ops: seq<Op>): Model {
    if ops == [] then Model([], 0, NoSession) else Do(Run(ops[..|ops| - 1]), ops[|ops| - 1])
  }

  /** A store without a limit, after the same calls: the numbers of the calls whose
      messages were neither popped nor wiped, how many of those a full ring has dropped
      by now, and how many it has dropped in all. */
  datatype Ledger = Ledger(all: seq<nat>, evicted: nat, total: nat, session: Session)

  function Book(a: Ledger, op: Op, n: nat): Ledger {
    match op
    case Adding(_) =>
      var full := if |a.all| - a.evicted < MAX_MESSAGES then 0 else 1;
      a.(all := a.all + [n], evicted := a.evicted + full, total := a.total + full)
    case Popping => if a.evicted < |a.all| then a.(all := a.all[..|a.all| - 1]) else a
    case Clearing => a.(all := [], evicted := 0)
    case Switching(to) => if Wipes(a.session, to) then a.(all := [], evicted := 0, session := to) else a.(session := to)
    case _ => a
  }

  function Account(ops: seq<Op>): Ledger {
    if ops == [] then Ledger([], 0, 0, NoSession) else Book(Account(ops[..|ops| - 1]), ops[|ops| - 1], |ops| - 1)
  }

  /** The same message, apart from what a later call may write into it. */
  predicate SameOrigin(m: Message, added: Message) {
    m == added.(text := m.text, height := m.height, receipt := m.receipt, active := true)
  }

  /** m is the message that call number k added. */
  ghost predicate Holds(ops: seq<Op>, m: Message, k: int) {
    0 <= k < |ops| && ops[k].Adding? && SameOrigin(m, ops[k].m)
  }

  predicate Tallies(s: Model, a: Ledger, n: nat) {
    && s.session == a.session && s.drops == a.total
    && a.evicted + |s.msgs| == |a.all| && |s.msgs| <= MAX_MESSAGES
    && (forall i, j :: 0 <= i < j < |a.all| ==> a.all[i] < a.all[j])
    && (forall i :: 0 <= i < |a.all| ==> a.all[i] < n)
  }

  /** Message i is the one added by call number all[evicted + i]. */
  ghost predicate InOrder(ops: seq<Op>, s: Model, a: Ledger) {
    a.evicted + |s.msgs| == |a.all| && forall i :: 0 <= i < |s.msgs| ==> Holds(ops, s.msgs[i], a.all[a.evicted + i])
  }

  lemma BookTallies(s: Model, a: Ledger, op: Op, n: nat)
    requires Tallies(s, a, n)
    ensures Tallies(Do(s, op), Book(a, op, n), n + 1)
  {
    hide NewestAnswer, CopyStr, WithReceipt, Stored;
  }

  lemma WritesKeepOrigin(ops: seq<Op>, s: Model, s': Model, a: Ledger)
    requires InOrder(ops, s, a) && |s'.msgs| == |s.msgs|
    requires forall i :: 0 <= i < |s.msgs| ==>
               s'.msgs[i] == s.msgs[i].(text := s'.msgs[i].text, height := s'.msgs[i].height, receipt := s'.msgs[i].receipt)
    ensures InOrder(ops, s', a)
  {
    forall i | 0 <= i < |s'.msgs| ensures Holds(ops, s'.msgs[i], a.all[a.evicted + i]) {
      assert Holds(ops, s.msgs[i], a.all[a.evicted + i]);
    }
  }

  lemma AddingKeepsOrder(ops: seq<Op>, s: Model, a: Ledger)
    requires ops != [] && ops[|ops| - 1].Adding? && InOrder(ops, s, a) && Tallies(s, a, |ops| - 1)
    ensures InOrder(ops, Do(s, ops[|ops| - 1]), Book(a, ops[|ops| - 1], |ops| - 1))
  {
    var n := |ops| - 1;
    var s', a' := Do(s, ops[n]), Book(a, ops[n], n);
    forall i | 0 <= i < |s'.msgs| ensures Holds(ops, s'.msgs[i], a'.all[a'.evicted + i]) {
      if i < |s'.msgs| - 1 {
        var j := if |s.msgs| < MAX_MESSAGES then i else i + 1;
        assert Holds(ops, s.msgs[j], a.all[a.evicted + j]);
      }
    }
  }

  lemma BookKeepsOrder(ops: seq<Op>, s: Model, a: Ledger)
    requires ops != [] && InOrder(ops[..|ops| - 1], s, a) && Tallies(s, a, |ops| - 1)
    ensures InOrder(ops, Do(s, ops[|ops| - 1]), Book(a, ops[|ops| - 1], |ops| - 1))
  {
    var op := ops[|ops| - 1];
    assert InOrder(ops, s, a) by {
      forall i | 0 <= i < |s.msgs| ensures Holds(ops, s.msgs[i], a.all[a.evicted + i]) {
        assert Holds(ops[..|ops| - 1], s.msgs[i], a.all[a.evicted + i]);
      }
    }
    if op.Adding? {
      AddingKeepsOrder(ops, s, a);
    } else if op.Attaching? || op.Updating? || op.Measuring? {
      WritesKeepOrigin(ops, s, Do(s, op), a);
    } else {
      hide Holds, Wipes;
    }
  }

  /** What any run leaves in the ring is the newest end of what a store without a limit
      would hold, message for message in the order they were added, and the counter
      says how many a full ring has dropped. */
  lemma {:induction false} RunIsAccounted(ops: seq<Op>)
    ensures Tallies(Run(ops), Account(ops), |ops|) && InOrder(ops, Run(ops), Account(ops))
  {
    if ops != [] {
      var n := |ops| - 1;
      RunIsAccounted(ops[..n]);
      BookTallies(Run(ops[..n]), Account(ops[..n]), ops[n], n);
      BookKeepsOrder(ops, Run(ops[..n]), Account(ops[..n]));
      hide Tallies, InOrder, Do, Book;
    }
  }

  /** A message is dropped, the oldest, only by adding one to a store that holds a hundred. */
  lemma DropsIffFull(s: Model, m: Message)
    requires |s.msgs| <= 100
    ensures var s' := AddTo(s, m);
            && |s'.msgs| == (if |s.msgs| == 100 then 100 else |s.msgs| + 1)
            && s'.drops == (if |s.msgs| == 100 then s.drops + 1 else s.drops) && s'.session == s.session
            && s'.msgs[..|s'.msgs| - 1] == (if |s.msgs| == 100 then s.msgs[1..] else s.msgs)
            && s'.msgs[|s'.msgs| - 1] == m.(active := true, height := if m.height == 0 then -1 else m.height)
  {
  }

  /** Text in use that the user did not write: no card, no image, no clip, no notice. */
  predicate ShowsAnswer(m: Message) {
    match m
    case Message(Text, false, _, _, _, _, _, true, _, _, _, _) => true
    case _ => false
  }

  /** A receipt goes to the newest assistant text and touches nothing else. */
  lemma ReceiptFindsItsAnswer(s: Model, r: Receipt, i: nat)
    requires i < |s.msgs|
    ensures |Do(s, Attaching(r)).msgs| == |s.msgs|
    ensures Do(s, Attaching(r)).msgs[i] ==
              if ShowsAnswer(s.msgs[i]) && forall k :: i < k < |s.msgs| ==> !ShowsAnswer(s.msgs[k])
              then s.msgs[i].(receipt := Receipt(r.mils, r.promptTokens, r.completionTokens,
                                                 r.model[..if |r.model| < 16 then |r.model| else 15], r.retried),
                              height := -1)
              else s.msgs[i]
    ensures Do(s, Attaching(r)).drops == s.drops && Do(s, Attaching(r)).session == s.session
  {
    var newest := NewestAnswer(s.msgs, |s.msgs|);
    assert newest < 0 || newest < i || newest == i || IsAnswer(s.msgs[newest]);
  }

  /** A text goes to the newest message, its first 511 characters, and a height to the one it is for. */
  lemma OnlyThatMessageChanges(s: Model, text: string, at: int, h: int, i: nat)
    requires i < |s.msgs|
    ensures |Do(s, Updating(text)).msgs| == |Do(s, Measuring(at, h)).msgs| == |s.msgs|
    ensures Do(s, Updating(text)).msgs[i] ==
              if i == |s.msgs| - 1 then s.msgs[i].(text := text[..if |text| < 512 then |text| else 511], height := -1)
              else s.msgs[i]
    ensures Do(s, Measuring(at, h)).msgs[i] == if i == at then s.msgs[i].(height := h) else s.msgs[i]
  {
    assert |text| < 512 ==> text[..|text|] == text;
  }

  /** Opening the first session keeps what was said before it; so does reopening the same one. */
  lemma MessagesSurviveIffSameSession(s: Model, to: Session)
    requires s.msgs != []
    ensures SetSessionOf(s, to).msgs == s.msgs <==> to.Session? && (s.session.Session? ==> s.session.id == to.id)
    ensures SetSessionOf(s, to).msgs != s.msgs ==> SetSessionOf(s, to).msgs == []
  {
  }
}
