// Scheduling an update for the next boot: main/ota.c, with NVS writes, reboots and
// crashes as steps.  NVS keeps writes in order, but of those not yet committed a crash,
// or closing the handle on an error, may keep any number: the order of the keys matters.

module OtaSchedule {

  const URL_BUF: nat := 256
  const SHA_BUF: nat := 65

  datatype Option<+T> = None | Some(value: T)

  /** The ota_pending namespace. */
  datatype Keys = Keys(flag: bool, url: Option<string>, sha: Option<string>)

  datatype Write = PutUrl(text: string) | PutSha(text: string) | DropUrl | DropSha | RaiseFlag | DropFlag

  function Put(keys: Keys, w: Write): Keys {
    match w
    case PutUrl(text) => keys.(url := Some(text))
    case PutSha(text) => keys.(sha := Some(text))
    case DropUrl => keys.(url := None)
    case DropSha => keys.(sha := None)
    case RaiseFlag => keys.(flag := true)
    case DropFlag => keys.(flag := false)
  }

  function Replay(keys: Keys, log: seq<Write>): Keys
    decreases |log|
  {
    if log == [] then keys else Replay(Put(keys, log[0]), log[1..])
  }

  /** nvs_get_str: absent keys and strings that do not fit the buffer are errors. */
  function GetStr(v: Option<string>, bufSize: nat): Option<string> {
    if v.Some? && |v.value| + 1 <= bufSize then v else None
  }

  /** The sha as the boot reads it, empty when it cannot. */
  function ShaRead(keys: Keys): string {
    var sha := GetStr(keys.sha, SHA_BUF);
    if sha.Some? then sha.value else ""
  }

  /** A schedule as its caller gave it; the empty sha stands for none. */
  datatype Job = Job(url: string, sha: string)

  datatype Pc =
    | Up
    | SetUrl | SetSha | SetFlag | CommitSchedule                             // tab5_ota_schedule
    | Boot | ReadUrl | EraseOrphanFlag | CommitOrphan
    | ReadSha | EraseFlag | EraseUrl | EraseSha | CommitErase | StartApply   // tab5_ota_apply_pending_if_any
    | Applying

  datatype Apply = Apply(id: int, job: Job)

  /** `nvs` would survive a crash as it is; `log` are the writes since.  `schedules` are those
      whose flag has reached NVS, `held` the one whose flag it is, `taken` the one being applied. */
  datatype State = State(
    nvs: Keys, log: seq<Write>, pc: Pc,
    arg: Job, local: Job,
    schedules: seq<Job>, held: int, taken: int, applies: seq<Apply>)

  const INIT := State(Keys(false, None, None), [], Boot, Job("", ""), Job("", ""), [], -1, -1, [])

  /** Schedule is a call, Next the next statement, WriteFails an NVS write that is refused,
      Finish the end of an apply, NoNetwork a boot that skips the check.  `kept` is how many
      of the writes not committed reach NVS all the same. */
  datatype Action =
    | Schedule(job: Job) | Next | WriteFails(kept: nat) | Finish(updated: bool) | NoNetwork | Crash(kept: nat)

  /** The first k writes reach NVS. */
  function Persist(s: State, k: nat): State
    requires k <= |s.log|
  {
    var t := s.(nvs := Replay(s.nvs, s.log[..k]), log := []);
    if RaiseFlag in s.log[..k] then t.(schedules := s.schedules + [s.arg], held := |s.schedules|)
    else if DropFlag in s.log[..k] then t.(held := -1)
    else t
  }

  function Kept(s: State, kept: nat): nat {
    if kept < |s.log| then kept else |s.log|
  }

  function ShaWrite(job: Job): Write {
    if job.sha != "" then PutSha(job.sha) else DropSha
  }

  function Statement(s: State): State {
    match s.pc
    case Up => s
    case SetUrl => s.(log := s.log + [PutUrl(s.arg.url)], pc := SetSha)
    case SetSha => s.(log := s.log + [ShaWrite(s.arg)], pc := SetFlag)
    case SetFlag => s.(log := s.log + [RaiseFlag], pc := CommitSchedule)
    case CommitSchedule => Reboot(s, |s.log|)
    case Boot => if s.nvs.flag then s.(taken := s.held, pc := ReadUrl) else s.(pc := Up)
    case ReadUrl =>
      var url := GetStr(s.nvs.url, URL_BUF);
      if url.None? then s.(pc := EraseOrphanFlag) else s.(local := Job(url.value, ""), pc := ReadSha)
    case EraseOrphanFlag => s.(log := s.log + [DropFlag], pc := CommitOrphan)
    case CommitOrphan => Persist(s, |s.log|).(pc := Up)
    case ReadSha =>
      s.(local := s.local.(sha := ShaRead(s.nvs)), pc := EraseFlag)
    case EraseFlag => s.(log := s.log + [DropFlag], pc := EraseUrl)
    case EraseUrl => s.(log := s.log + [DropUrl], pc := EraseSha)
    case EraseSha => s.(log := s.log + [DropSha], pc := CommitErase)
    case CommitErase => Persist(s, |s.log|).(pc := StartApply)
    case StartApply => s.(applies := s.applies + [Apply(s.taken, s.local)], pc := Applying)
    case Applying => s
  }

  function Reboot(s: State, k: nat): State
    requires k <= |s.log|
  {
    Persist(s, k).(pc := Boot, arg := Job("", ""), local := Job("", ""), taken := -1)
  }

  function Do(s: State, a: Action): State {
    match a
    case Schedule(job) => if s.pc.Up? && job.url != "" then s.(log := [], arg := job, pc := SetUrl) else s
    case Next => Statement(s)
    case WriteFails(kept) => if s.pc in {SetUrl, SetSha, SetFlag} then Persist(s, Kept(s, kept)).(pc := Up) else s
    case Finish(updated) => if s.pc.Applying? then (if updated then Reboot(s, |s.log|) else s.(pc := Up)) else s
    case NoNetwork => if s.pc.Boot? then s.(pc := Up) else s
    case Crash(kept) => Reboot(s, Kept(s, kept))
  }

  function Run(actions: seq<Action>): State {
    if actions == [] then INIT else Do(Run(actions[..|actions| - 1]), actions[|actions| - 1])
  }

  // ---------------------------------------------------------------- the invariant

  /** The keys a schedule leaves behind. */
  function KeysOf(job: Job): Keys {
    Keys(true, Some(job.url), if job.sha != "" then Some(job.sha) else None)
  }

  /** What should be handed to tab5_ota_apply for a schedule: nothing if its url does not fit. */
  function Handed(job: Job): Option<Job> {
    if |job.url| < URL_BUF then Some(Job(job.url, if |job.sha| < SHA_BUF then job.sha else "")) else None
  }

  /** What a boot that finds these keys hands to it. */
  function HandOut(keys: Keys): Option<Job> {
    var url := GetStr(keys.url, URL_BUF);
    if url.Some? then Some(Job(url.value, ShaRead(keys))) else None
  }

  predicate NotApplied(s: State, id: int) {
    0 <= id < |s.schedules| && forall k :: 0 <= k < |s.applies| ==> s.applies[k].id != id
  }

  /** At most one apply a schedule, in their order, each with its own url and sha. */
  predicate AppliesInv(s: State) {
    && (forall k :: 0 <= k < |s.applies| ==>
          && 0 <= s.applies[k].id < |s.schedules|
          && Handed(s.schedules[s.applies[k].id]) == Some(s.applies[k].job))
    && (forall j, k :: 0 <= j < k < |s.applies| ==> s.applies[j].id < s.applies[k].id)
  }

  /** The newest schedule, and no apply has been started for it. */
  predicate Waiting(s: State, id: int) {
    NotApplied(s, id) && id == |s.schedules| - 1
  }

  /** The keys hand out the job of the schedule whose flag is up, or none. */
  predicate Honest(s: State) {
    0 <= s.held < |s.schedules| && HandOut(s.nvs) in {None, Handed(s.schedules[s.held])}
  }

  predicate HeldInv(s: State) {
    s.nvs.flag ==> Waiting(s, s.held) && Honest(s)
  }

  /** The local copy is that of a schedule still waiting. */
  predicate Taken(s: State, id: int) {
    Waiting(s, id) && s.taken == id && Handed(s.schedules[id]) == Some(s.local)
  }

  function ScheduleLog(job: Job): seq<Write> {
    [PutUrl(job.url), ShaWrite(job), RaiseFlag]
  }

  const ERASE_LOG: seq<Write> := [DropFlag, DropUrl, DropSha]

  predicate Scheduling(pc: Pc) {
    pc in {SetUrl, SetSha, SetFlag, CommitSchedule}
  }

  /** How many writes have been made since the handle was opened. */
  function Written(pc: Pc): (n: nat)
    ensures n <= 3
  {
    match pc
    case SetSha => 1
    case SetFlag => 2
    case CommitSchedule => 3
    case CommitOrphan => 1
    case EraseUrl => 1
    case EraseSha => 2
    case CommitErase => 3
    case _ => 0
  }

  predicate LogInv(s: State) {
    s.log == (if Scheduling(s.pc) then ScheduleLog(s.arg) else ERASE_LOG)[..Written(s.pc)]
  }

  predicate PcInv(s: State) {
    match s.pc
    case Up => true
    case Boot => true
    case ReadUrl => s.nvs.flag && s.taken == s.held
    case EraseOrphanFlag => s.nvs.flag
    case CommitOrphan => s.nvs.flag
    case ReadSha =>
      && s.nvs.flag && s.taken == s.held
      && GetStr(s.nvs.url, URL_BUF).Some? && s.local == Job(s.nvs.url.value, "")
    case StartApply => !s.nvs.flag && Taken(s, s.taken)
    case Applying => !s.nvs.flag
    case _ => Scheduling(s.pc) || (s.nvs.flag && Taken(s, s.held))
  }

  predicate Inv(s: State) {
    AppliesInv(s) && HeldInv(s) && LogInv(s) && PcInv(s)
  }

  /** Of an interrupted schedule k writes reach NVS, not the flag among them; and they change
      what the flag that is already up hands out to something that was never scheduled. */
  predicate Mixes(s: State, k: nat)
    requires k <= |s.log|
  {
    && Scheduling(s.pc) && s.nvs.flag && RaiseFlag !in s.log[..k]
    && 0 <= s.held < |s.schedules|
    && HandOut(Replay(s.nvs, s.log[..k])) !in {None, Handed(s.schedules[s.held])}
  }

  /** The flag is written last: until it is there, nothing new is scheduled. */
  lemma ReplayOfSchedule(keys: Keys, job: Job, k: nat)
    requires k <= 3
    ensures var log := ScheduleLog(job)[..k];
            && (RaiseFlag in log <==> k == 3) && DropFlag !in log
            && Replay(keys, log) == match k
                                    case 0 => keys
                                    case 1 => keys.(url := Some(job.url))
                                    case 2 => KeysOf(job).(flag := keys.flag)
                                    case _ => KeysOf(job)
  {
    var log := ScheduleLog(job);
    ReplayOfThree(keys, PutUrl(job.url), ShaWrite(job), RaiseFlag);
    assert log[..0] == [] && log[..1] == [log[0]] && log[..2] == [log[0], log[1]] && log[..3] == log;
    hide Replay;
  }

  lemma ReplayStep(keys: Keys, w: Write, rest: seq<Write>)
    ensures Replay(keys, [w] + rest) == Replay(Put(keys, w), rest)
    ensures Replay(keys, []) == keys
  {
    assert ([w] + rest)[1..] == rest;
  }

  lemma ReplayOfThree(keys: Keys, a: Write, b: Write, c: Write)
    ensures Replay(keys, []) == keys && Replay(keys, [a]) == Put(keys, a)
    ensures Replay(keys, [a, b]) == Put(Put(keys, a), b) && Replay(keys, [a, b, c]) == Put(Put(Put(keys, a), b), c)
  {
    ReplayStep(Put(Put(keys, a), b), c, []);
    ReplayStep(Put(keys, a), b, []);
    ReplayStep(Put(keys, a), b, [c]);
    ReplayStep(keys, a, []);
    ReplayStep(keys, a, [b]);
    ReplayStep(keys, a, [b, c]);
    assert [c] + [] == [c] && [b] + [] == [b] && [a] + [] == [a];
    assert [b] + [c] == [b, c] && [a] + [b] == [a, b] && [a] + [b, c] == [a, b, c];
  }

  /** It is erased first: whatever is left, nothing is scheduled any more. */
  lemma ReplayOfErase(keys: Keys, k: nat)
    requires k <= 3
    ensures var log := ERASE_LOG[..k];
            && (DropFlag in log <==> k > 0) && RaiseFlag !in log
            && Replay(keys, log).flag == (keys.flag && k == 0)
            && (k == 0 ==> Replay(keys, log) == keys)
            && (k == 3 ==> Replay(keys, log) == Keys(false, None, None))
  {
    var log := ERASE_LOG;
    ReplayOfThree(keys, DropFlag, DropUrl, DropSha);
    assert log[..0] == [] && log[..1] == [log[0]] && log[..2] == [log[0], log[1]] && log[..3] == log;
    hide Replay;
  }

  lemma SameApplies(s: State, t: State)
    requires AppliesInv(s) && t.applies == s.applies && t.schedules == s.schedules
    ensures AppliesInv(t)
    ensures forall id :: Waiting(s, id) == Waiting(t, id)
  {
  }

  lemma OneMoreScheduled(s: State, t: State, job: Job)
    requires AppliesInv(s) && t.applies == s.applies && t.schedules == s.schedules + [job]
    ensures AppliesInv(t) && Waiting(t, |s.schedules|)
  {
  }

  lemma KeysHandOut(job: Job)
    ensures HandOut(KeysOf(job)) == Handed(job)
  {
  }

  /** Whatever part of the writes reaches NVS, unless it mixes two schedules. */
  lemma PersistKeepsInv(s: State, k: nat)
    requires Inv(s) && k <= |s.log| && !Mixes(s, k)
    ensures AppliesInv(Persist(s, k)) && HeldInv(Persist(s, k)) && Persist(s, k).log == []
    ensures !Scheduling(s.pc) && k > 0 ==> !Persist(s, k).nvs.flag
    ensures !Scheduling(s.pc) ==> Persist(s, k).schedules == s.schedules
  {
    var t := Persist(s, k);
    if Scheduling(s.pc) {
      assert s.log[..k] == ScheduleLog(s.arg)[..k];
      ReplayOfSchedule(s.nvs, s.arg, k);
      KeysHandOut(s.arg);
      hide Replay, ScheduleLog, AppliesInv, NotApplied, Written, HandOut, Handed;
      if k == 3 { OneMoreScheduled(s, t, s.arg); } else { SameApplies(s, t); }
    } else {
      assert s.log[..k] == ERASE_LOG[..k];
      ReplayOfErase(s.nvs, k);
      hide Replay, ERASE_LOG, AppliesInv, NotApplied, Written, HandOut, Handed;
      SameApplies(s, t);
    }
  }

  /** The next write of the sequence. */
  lemma LogGrows(job: Job, n: nat)
    requires n < 3
    ensures ScheduleLog(job)[..n] + [ScheduleLog(job)[n]] == ScheduleLog(job)[..n + 1]
    ensures ERASE_LOG[..n] + [ERASE_LOG[n]] == ERASE_LOG[..n + 1]
  {
  }

  lemma TakenStays(s: State)
    requires Inv(s) && s.pc.CommitErase?
    ensures Taken(Statement(s), s.taken)
  {
    PersistKeepsInv(s, |s.log|);
    SameApplies(s, Statement(s));
  }

  lemma ApplyKeepsInv(s: State)
    requires Inv(s) && s.pc.StartApply?
    ensures Inv(Statement(s))
  {
  }

  /** The statements that only read, or add a write to the log. */
  lemma QuietStatementKeepsInv(s: State)
    requires Inv(s) && s.pc !in {CommitSchedule, CommitOrphan, CommitErase, StartApply}
    ensures Inv(Statement(s))
  {
    var t := Statement(s);
    SameApplies(s, t);
    if Written(s.pc) < 3 { LogGrows(s.arg, Written(s.pc)); }
    assert s.pc.ReadSha? ==> Taken(t, t.held);
    hide Persist, AppliesInv, NotApplied, Handed;
  }

  lemma CommitsAreWhole(s: State)
    requires Inv(s) && s.pc.CommitSchedule?
    ensures !Mixes(s, |s.log|)
  {
    assert s.log[..|s.log|] == ScheduleLog(s.arg)[..3];
    ReplayOfSchedule(s.nvs, s.arg, 3);
    hide Replay, ScheduleLog, AppliesInv, HandOut;
  }

  lemma StatementKeepsInv(s: State)
    requires Inv(s)
    ensures Inv(Statement(s))
  {
    if s.pc in {CommitSchedule, CommitOrphan, CommitErase} {
      if s.pc.CommitSchedule? { CommitsAreWhole(s); }
      PersistKeepsInv(s, |s.log|);
      if s.pc.CommitErase? { TakenStays(s); }
    } else if s.pc.StartApply? {
      ApplyKeepsInv(s);
    } else {
      QuietStatementKeepsInv(s);
      assert Inv(Statement(s));
    }
    hide Persist, AppliesInv, HeldInv, Handed, NotApplied;
  }

  lemma RebootKeepsInv(s: State, k: nat)
    requires Inv(s) && k <= |s.log| && !Mixes(s, k)
    ensures Inv(Reboot(s, k))
  {
    PersistKeepsInv(s, k);
    SameApplies(Persist(s, k), Reboot(s, k));
    hide Persist, AppliesInv, NotApplied;
  }

  lemma WriteFailsKeepsInv(s: State, k: nat)
    requires Inv(s) && k <= |s.log| && !Mixes(s, k)
    ensures Inv(Persist(s, k).(pc := Up))
  {
    PersistKeepsInv(s, k);
    SameApplies(Persist(s, k), Persist(s, k).(pc := Up));
    hide Persist, AppliesInv, NotApplied;
  }

  /** Between two calls: the pc moves on, and nothing else that matters. */
  lemma CallKeepsInv(s: State, t: State)
    requires Inv(s) && s.log == [] && t.log == [] && t.nvs == s.nvs && t.schedules == s.schedules
    requires t.held == s.held && t.applies == s.applies && t.pc in {Up, Boot, SetUrl}
    ensures Inv(t)
  {
    SameApplies(s, t);
    hide AppliesInv, NotApplied;
  }

  /** The action is an interruption that mixes two schedules. */
  predicate Mixing(s: State, a: Action) {
    match a
    case Crash(kept) => Mixes(s, Kept(s, kept))
    case WriteFails(kept) => s.pc in {SetUrl, SetSha, SetFlag} && Mixes(s, Kept(s, kept))
    case _ => false
  }

  lemma DoKeepsInv(s: State, a: Action)
    requires Inv(s) && !Mixing(s, a)
    ensures Inv(Do(s, a))
  {
    hide AppliesInv, HeldInv, Persist, Reboot, Statement, Mixes;
    match a
    case Next => StatementKeepsInv(s);
    case WriteFails(kept) => if s.pc in {SetUrl, SetSha, SetFlag} { WriteFailsKeepsInv(s, Kept(s, kept)); }
    case Finish(_) => if s.pc.Applying? { FinishKeepsInv(s); CallKeepsInv(s, s.(pc := Up)); }
    case Crash(kept) => RebootKeepsInv(s, Kept(s, kept));
    case Schedule(job) => if s.pc.Up? && job.url != "" { CallKeepsInv(s, Do(s, a)); }
    case NoNetwork => if s.pc.Boot? { CallKeepsInv(s, Do(s, a)); }
  }

  lemma FinishKeepsInv(s: State)
    requires Inv(s) && s.pc.Applying?
    ensures Inv(Reboot(s, |s.log|))
  {
    RebootKeepsInv(s, |s.log|);
    hide Reboot, Inv;
  }

  /** No interruption in the run mixes two schedules. */
  predicate NeverMixed(actions: seq<Action>) {
    forall i :: 0 <= i < |actions| ==> !Mixing(Run(actions[..i]), actions[i])
  }

  lemma {:induction false} RunKeepsInv(actions: seq<Action>)
    requires NeverMixed(actions)
    ensures Inv(Run(actions))
  {
    if actions != [] {
      var n := |actions| - 1;
      forall i | 0 <= i < n ensures !Mixing(Run(actions[..n][..i]), actions[..n][i]) {
        assert actions[..n][..i] == actions[..i];
      }
      RunKeepsInv(actions[..n]);
      DoKeepsInv(Run(actions[..n]), actions[n]);
    }
    hide Inv, Do, Mixing;
  }

  // ------------------------------------------------------------------ whole runs

  /** Wherever power fails and whatever of the last writes survives it: every schedule starts
      at most one apply, in the order of the schedules, with its own url and its own sha;
      provided no interruption mixes two schedules. */
  lemma {:induction false} AppliedAtMostOnce(actions: seq<Action>)
    requires NeverMixed(actions)
    ensures AppliesInv(Run(actions))
  {
    RunKeepsInv(actions);
  }

  /** Commits are atomic in the run: of a schedule that is interrupted nothing is kept, or all of it. */
  predicate AtomicCommits(actions: seq<Action>) {
    forall i :: 0 <= i < |actions| ==> AllOrNothing(Run(actions[..i]), actions[i])
  }

  predicate AllOrNothing(s: State, a: Action) {
    match a
    case Crash(kept) => Scheduling(s.pc) ==> Kept(s, kept) in {0, 3}
    case WriteFails(kept) => Scheduling(s.pc) ==> Kept(s, kept) in {0, 3}
    case _ => true
  }

  lemma AllOrNothingIsUnmixed(s: State, a: Action)
    requires Inv(s) && AllOrNothing(s, a)
    ensures !Mixing(s, a)
  {
    if Scheduling(s.pc) && (a.Crash? || a.WriteFails?) {
      var k := Kept(s, a.kept);
      assert s.log[..k] == ScheduleLog(s.arg)[..k];
      ReplayOfSchedule(s.nvs, s.arg, k);
    }
    hide Replay, ScheduleLog, AppliesInv, HandOut, Handed;
  }

  lemma AtomicSoFar(actions: seq<Action>)
    requires AtomicCommits(actions) && actions != []
    ensures AtomicCommits(actions[..|actions| - 1]) && AllOrNothing(Run(actions[..|actions| - 1]), actions[|actions| - 1])
  {
    hide Run, AllOrNothing;
    var n := |actions| - 1;
    forall i | 0 <= i < n ensures AllOrNothing(Run(actions[..n][..i]), actions[..n][i]) {
      assert actions[..n][..i] == actions[..i];
    }
  }

  lemma OneMoreUnmixed(actions: seq<Action>)
    requires actions != [] && NeverMixed(actions[..|actions| - 1])
    requires !Mixing(Run(actions[..|actions| - 1]), actions[|actions| - 1])
    ensures NeverMixed(actions)
  {
    hide Run, Mixing;
    var n := |actions| - 1;
    forall i | 0 <= i < n ensures !Mixing(Run(actions[..i]), actions[i]) {
      assert actions[..n][..i] == actions[..i] && actions[..n][i] == actions[i];
    }
  }

  /** With atomic commits no run mixes anything, whether or not a flag is up when the next schedule is made. */
  lemma {:induction false} AtomicCommitsNeverMix(actions: seq<Action>)
    requires AtomicCommits(actions)
    ensures NeverMixed(actions) && AppliesInv(Run(actions))
  {
    if actions != [] {
      var n := |actions| - 1;
      AtomicSoFar(actions);
      AtomicCommitsNeverMix(actions[..n]);
      RunKeepsInv(actions[..n]);
      AllOrNothingIsUnmixed(Run(actions[..n]), actions[n]);
      OneMoreUnmixed(actions);
    }
    RunKeepsInv(actions);
    hide NeverMixed, AtomicCommits, Run, Mixing, AllOrNothing, AppliesInv, HeldInv, LogInv, PcInv;
  }

  /** The keys are those the schedule left whose flag is up. */
  predicate Intact(s: State) {
    s.nvs.flag ==> 0 <= s.held < |s.schedules| && s.nvs == KeysOf(s.schedules[s.held])
  }

  lemma PersistKeepsIntact(s: State, k: nat)
    requires LogInv(s) && Intact(s) && k <= |s.log| && (Scheduling(s.pc) ==> k in {0, 3})
    ensures Intact(Persist(s, k))
  {
    if Scheduling(s.pc) {
      assert s.log[..k] == ScheduleLog(s.arg)[..k];
      ReplayOfSchedule(s.nvs, s.arg, k);
    } else {
      assert s.log[..k] == ERASE_LOG[..k];
      ReplayOfErase(s.nvs, k);
    }
    hide Replay, ScheduleLog, ERASE_LOG, Written;
  }

  lemma DoKeepsIntact(s: State, a: Action)
    requires LogInv(s) && Intact(s) && AllOrNothing(s, a)
    ensures Intact(Do(s, a))
  {
    if !Scheduling(s.pc) || s.pc.CommitSchedule? { PersistKeepsIntact(s, |s.log|); }
    match a
    case Crash(kept) => PersistKeepsIntact(s, Kept(s, kept));
    case WriteFails(kept) => if s.pc in {SetUrl, SetSha, SetFlag} { PersistKeepsIntact(s, Kept(s, kept)); }
    case _ =>
    hide Persist, GetStr, KeysOf;
  }

  /** With atomic commits the keys that stand behind a flag are its schedule's own, unspoilt. */
  lemma {:induction false} AtomicCommitsKeepKeys(actions: seq<Action>)
    requires AtomicCommits(actions)
    ensures Intact(Run(actions))
  {
    if actions != [] {
      var n := |actions| - 1;
      AtomicSoFar(actions);
      AtomicCommitsKeepKeys(actions[..n]);
      AtMostOnceAlways(actions[..n]);
      DoKeepsIntact(Run(actions[..n]), actions[n]);
    }
    hide Do, AtomicCommits, Intact, AllOrNothing;
  }

  // --------------------------------------------------------- at most once, mixed or not

  predicate IdsInv(s: State) {
    && (forall k :: 0 <= k < |s.applies| ==> 0 <= s.applies[k].id < |s.schedules|)
    && (forall j, k :: 0 <= j < k < |s.applies| ==> s.applies[j].id < s.applies[k].id)
  }

  predicate OnceInv(s: State) {
    && IdsInv(s) && LogInv(s)
    && (s.nvs.flag ==> Waiting(s, s.held))
    && (s.pc in {ReadUrl, EraseOrphanFlag, CommitOrphan, ReadSha, EraseFlag, EraseUrl, EraseSha, CommitErase} ==>
          s.nvs.flag && s.taken == s.held)
    && (s.pc.StartApply? ==> !s.nvs.flag && Waiting(s, s.taken))
    && (s.pc.Applying? ==> !s.nvs.flag)
  }

  lemma SameIds(s: State, t: State)
    requires IdsInv(s) && t.applies == s.applies
    ensures t.schedules == s.schedules ==> IdsInv(t) && forall id :: Waiting(s, id) == Waiting(t, id)
    ensures |t.schedules| == |s.schedules| + 1 ==> IdsInv(t) && Waiting(t, |s.schedules|)
  {
  }

  lemma PersistKeepsOnce(s: State, k: nat)
    requires OnceInv(s) && k <= |s.log|
    ensures IdsInv(Persist(s, k)) && (Persist(s, k).nvs.flag ==> Waiting(Persist(s, k), Persist(s, k).held))
    ensures !Scheduling(s.pc) && k > 0 ==> !Persist(s, k).nvs.flag && Persist(s, k).schedules == s.schedules
    ensures Persist(s, k).log == [] && Persist(s, k).applies == s.applies
  {
    SameIds(s, Persist(s, k));
    if Scheduling(s.pc) {
      assert s.log[..k] == ScheduleLog(s.arg)[..k];
      ReplayOfSchedule(s.nvs, s.arg, k);
    } else {
      assert s.log[..k] == ERASE_LOG[..k];
      ReplayOfErase(s.nvs, k);
    }
    hide Replay, ScheduleLog, ERASE_LOG, IdsInv, Waiting, Written;
  }

  lemma RebootKeepsOnce(s: State, k: nat)
    requires OnceInv(s) && k <= |s.log|
    ensures OnceInv(Reboot(s, k)) && OnceInv(Persist(s, k).(pc := Up))
  {
    PersistKeepsOnce(s, k);
    SameIds(Persist(s, k), Reboot(s, k));
    SameIds(Persist(s, k), Persist(s, k).(pc := Up));
    hide Persist, IdsInv, Waiting;
  }

  lemma EraseKeepsOnce(s: State)
    requires OnceInv(s) && s.pc.CommitErase?
    ensures OnceInv(Statement(s))
  {
    PersistKeepsOnce(s, |s.log|);
    SameIds(s, Statement(s));
    assert Statement(s).taken == s.taken;
    hide IdsInv, Waiting, Replay;
  }

  lemma StatementKeepsOnce(s: State)
    requires OnceInv(s)
    ensures OnceInv(Statement(s))
  {
    if s.pc.CommitSchedule? || s.pc.CommitOrphan? {
      RebootKeepsOnce(s, |s.log|);
    } else if s.pc.CommitErase? {
      EraseKeepsOnce(s);
    } else if s.pc.StartApply? {
      ApplyKeepsOnce(s);
    } else {
      QuietKeepsOnce(s);
    }
    hide Persist, OnceInv, GetStr;
  }

  lemma QuietKeepsOnce(s: State)
    requires OnceInv(s) && s.pc !in {CommitSchedule, CommitOrphan, CommitErase, StartApply}
    ensures OnceInv(Statement(s))
  {
    SameIds(s, Statement(s));
    if Written(s.pc) < 3 { LogGrows(s.arg, Written(s.pc)); }
    hide Persist, IdsInv, Waiting, NotApplied;
  }

  lemma ApplyKeepsOnce(s: State)
    requires OnceInv(s) && s.pc.StartApply?
    ensures OnceInv(Statement(s))
  {
  }

  /** Between two calls: the pc moves on, and nothing else that matters. */
  lemma CallKeepsOnce(s: State, t: State)
    requires OnceInv(s) && s.log == [] && t.log == [] && t.nvs == s.nvs && t.schedules == s.schedules
    requires t.held == s.held && t.applies == s.applies && t.pc in {Up, Boot, SetUrl}
    ensures OnceInv(t)
  {
    SameIds(s, t);
    hide IdsInv, Waiting, NotApplied;
  }

  lemma DoKeepsOnce(s: State, a: Action)
    requires OnceInv(s)
    ensures OnceInv(Do(s, a))
  {
    hide IdsInv, Waiting, Persist, Reboot, Statement;
    match a
    case Next => StatementKeepsOnce(s);
    case WriteFails(kept) => RebootKeepsOnce(s, Kept(s, kept));
    case Finish(_) => RebootKeepsOnce(s, |s.log|); if s.pc.Applying? { CallKeepsOnce(s, s.(pc := Up)); }
    case Crash(kept) => RebootKeepsOnce(s, Kept(s, kept));
    case Schedule(job) => if s.pc.Up? && job.url != "" { CallKeepsOnce(s, Do(s, a)); }
    case NoNetwork => if s.pc.Boot? { CallKeepsOnce(s, Do(s, a)); }
  }

  /** Over every run whatever, mixed or not, each schedule starts at most one apply, in the
      order of the schedules. */
  lemma {:induction false} AtMostOnceAlways(actions: seq<Action>)
    ensures OnceInv(Run(actions))
    ensures var s := Run(actions);
            forall j, k :: 0 <= j < k < |s.applies| ==> 0 <= s.applies[j].id < s.applies[k].id < |s.schedules|
  {
    if actions != [] {
      AtMostOnceAlways(actions[..|actions| - 1]);
      DoKeepsOnce(Run(actions[..|actions| - 1]), actions[|actions| - 1]);
    }
    hide Do;
  }

  /** What is scheduled, or about to be, was asked for. */
  predicate Requested(s: State, actions: seq<Action>) {
    && (forall job :: job in s.schedules ==> job.url != "" && Schedule(job) in actions)
    && (Scheduling(s.pc) ==> s.arg.url != "" && Schedule(s.arg) in actions)
    && (RaiseFlag in s.log ==> s.pc.CommitSchedule?)
  }

  lemma PersistKeepsRequested(s: State, actions: seq<Action>, k: nat)
    requires Requested(s, actions) && k <= |s.log|
    ensures forall job :: job in Persist(s, k).schedules ==> job.url != "" && Schedule(job) in actions
    ensures Persist(s, k).log == []
  {
    assert RaiseFlag in s.log[..k] ==> RaiseFlag in s.log;
    hide Replay;
  }

  lemma DoKeepsRequested(s: State, init: seq<Action>, a: Action)
    requires Requested(s, init)
    ensures Requested(Do(s, a), init + [a])
  {
    assert forall x :: x in init ==> x in init + [a];
    assert Requested(s, init + [a]);
    PersistKeepsRequested(s, init + [a], |s.log|);
    var k := match a case Crash(kept) => Kept(s, kept) case WriteFails(kept) => Kept(s, kept) case _ => 0;
    PersistKeepsRequested(s, init + [a], k);
    hide Persist, Handed;
  }

  lemma {:induction false} SchedulesWereRequested(actions: seq<Action>)
    ensures Requested(Run(actions), actions)
    ensures forall job :: job in Run(actions).schedules ==> job.url != "" && Schedule(job) in actions
  {
    if actions != [] {
      var n := |actions| - 1;
      SchedulesWereRequested(actions[..n]);
      DoKeepsRequested(Run(actions[..n]), actions[..n], actions[n]);
      assert actions[..n] + [actions[n]] == actions;
    }
    hide Do;
  }

  /** In a run, the sha an image is verified against is the scheduled one if and only if that fits its
      buffer; if not there is none. */
  lemma {:induction false} AppliedShaIffItFits(actions: seq<Action>, k: nat)
    requires NeverMixed(actions) && k < |Run(actions).applies|
    ensures var s, a := Run(actions), Run(actions).applies[k];
            && 0 <= a.id < |s.schedules|
            && (a.job.sha == s.schedules[a.id].sha <==> |s.schedules[a.id].sha| < SHA_BUF)
            && (|s.schedules[a.id].sha| >= SHA_BUF ==> a.job.sha == "")
  {
    RunKeepsInv(actions);
    assert Handed(Run(actions).schedules[Run(actions).applies[k].id]) == Some(Run(actions).applies[k].job);
  }

  function NextTimes(s: State, n: nat): State {
    if n == 0 then s else Statement(NextTimes(s, n - 1))
  }

  lemma OneMore(s: State, n: nat)
    ensures NextTimes(s, 0) == s && NextTimes(s, n + 1) == Statement(NextTimes(s, n))
  {
  }

  /** The reading half of an undisturbed boot, once the flag and the url are found. */
  lemma ReadsThenErases(s: State)
    requires s.pc.Boot? && s.log == [] && s.nvs.flag && GetStr(s.nvs.url, URL_BUF).Some?
    ensures NextTimes(s, 3) ==
              s.(taken := s.held, pc := EraseFlag,
                 local := Job(s.nvs.url.value, ShaRead(s.nvs)))
  {
    OneMore(s, 0);
    OneMore(s, 1);
    OneMore(s, 2);
    hide NextTimes, Persist;
    assert NextTimes(s, 1) == s.(taken := s.held, pc := ReadUrl);
    assert NextTimes(s, 2) == s.(taken := s.held, local := Job(s.nvs.url.value, ""), pc := ReadSha);
  }

  lemma ErasesThenApplies(s: State)
    requires s.pc.EraseFlag? && s.log == []
    ensures NextTimes(s, 5) ==
              s.(nvs := Keys(false, None, None), held := -1, applies := s.applies + [Apply(s.taken, s.local)], pc := Applying)
  {
    OneMore(s, 0);
    OneMore(s, 1);
    OneMore(s, 2);
    OneMore(s, 3);
    OneMore(s, 4);
    var s3 := s.(log := ERASE_LOG, pc := CommitErase);
    EraseCommitted(s3);
    hide NextTimes, Persist;
    assert NextTimes(s, 1) == s.(log := [DropFlag], pc := EraseUrl);
    assert NextTimes(s, 2) == s.(log := [DropFlag, DropUrl], pc := EraseSha);
    assert NextTimes(s, 3) == s3;
  }

  lemma EraseCommitted(s: State)
    requires s.pc.CommitErase? && s.log == ERASE_LOG
    ensures Statement(s) == s.(nvs := Keys(false, None, None), log := [], held := -1, pc := StartApply)
  {
    ReplayOfErase(s.nvs, 3);
    assert s.log[..|s.log|] == ERASE_LOG[..3];
    hide Replay;
  }

  lemma {:induction false} NextTimesAdds(s: State, m: nat, n: nat)
    ensures NextTimes(s, m + n) == NextTimes(NextTimes(s, m), n)
  {
    if n > 0 { NextTimesAdds(s, m, n - 1); }
  }

  /** A flag whose url cannot be read is taken down, and nothing is applied. */
  lemma DropsUnreadable(s: State)
    requires s.pc.Boot? && s.log == [] && s.nvs.flag && HandOut(s.nvs).None?
    ensures NextTimes(s, 4) == s.(nvs := s.nvs.(flag := false), held := -1, taken := s.held, pc := Up)
  {
    OneMore(s, 0);
    OneMore(s, 1);
    OneMore(s, 2);
    OneMore(s, 3);
    ReplayOfThree(s.nvs, DropFlag, DropUrl, DropSha);
    assert [DropFlag][..1] == [DropFlag];
    hide NextTimes, Replay, ShaRead;
    assert NextTimes(s, 1) == s.(taken := s.held, pc := ReadUrl);
    assert NextTimes(s, 2) == s.(taken := s.held, pc := EraseOrphanFlag);
    assert NextTimes(s, 3) == s.(taken := s.held, log := [DropFlag], pc := CommitOrphan);
  }

  lemma UpStaysUp(s: State, n: nat)
    requires s.pc.Up?
    ensures NextTimes(s, n) == s
  {
  }

  lemma FullBoot(s: State)
    requires s.pc.Boot? && s.log == [] && s.nvs.flag && HandOut(s.nvs).Some?
    ensures var t := NextTimes(s, 8);
            && t.pc.Applying? && t.nvs == Keys(false, None, None) && t.schedules == s.schedules
            && t.applies == s.applies + [Apply(s.held, HandOut(s.nvs).value)]
  {
    assert GetStr(s.nvs.url, URL_BUF).Some? && HandOut(s.nvs).value == Job(s.nvs.url.value, ShaRead(s.nvs));
    hide NextTimes, GetStr, HandOut;
    ReadsThenErases(s);
    ErasesThenApplies(NextTimes(s, 3));
    NextTimesAdds(s, 3, 5);
  }

  /** A boot that is left alone applies what the keys hand out, or drops the schedule if that
      is nothing.  Either way no flag is left up. */
  lemma UndisturbedBoot(s: State)
    requires s.pc.Boot? && s.log == [] && s.nvs.flag
    ensures var t, job := NextTimes(s, 8), HandOut(s.nvs);
            && t.applies == s.applies + (if job.Some? then [Apply(s.held, job.value)] else [])
            && t.schedules == s.schedules && !t.nvs.flag && (t.pc.Applying? <==> job.Some?)
  {
    hide NextTimes, HandOut;
    if HandOut(s.nvs).Some? {
      FullBoot(s);
    } else {
      DropsUnreadable(s);
      UpStaysUp(NextTimes(s, 4), 4);
      NextTimesAdds(s, 4, 4);
    }
  }

  /** Such a boot applies a schedule whose keys are unspoilt exactly when its url fits the buffer;
      if not, the schedule is dropped.  Either way nothing is left waiting. */
  lemma UndisturbedBootAppliesIffUrlFits(s: State)
    requires s.pc.Boot? && s.log == [] && s.nvs.flag && Intact(s)
    ensures var t, job := NextTimes(s, 8), s.schedules[s.held];
            && (t.pc.Applying? <==> |job.url| < URL_BUF) && !t.nvs.flag
            && t.applies == s.applies + (if |job.url| < URL_BUF then [Apply(s.held, Handed(job).value)] else [])
  {
    UndisturbedBoot(s);
    KeysHandOut(s.schedules[s.held]);
    hide NextTimes, HandOut, KeysOf;
  }

  /** A schedule that is committed, whatever flag was up before, is what the next undisturbed boot
      applies, if and only if its url fits the buffer; if not, nothing is applied. */
  lemma CommittedThenBooted(s: State)
    requires Inv(s) && s.pc.CommitSchedule?
    ensures var t := NextTimes(Statement(s), 8);
            && t.schedules == s.schedules + [s.arg] && !t.nvs.flag
            && (t.pc.Applying? <==> |s.arg.url| < URL_BUF)
            && t.applies == s.applies + (if |s.arg.url| < URL_BUF
                                         then [Apply(|s.schedules|, Handed(s.arg).value)] else [])
  {
    assert s.log[..|s.log|] == ScheduleLog(s.arg)[..3];
    ReplayOfSchedule(s.nvs, s.arg, 3);
    KeysHandOut(s.arg);
    UndisturbedBoot(Statement(s));
    hide NextTimes, Replay, ScheduleLog, HandOut, AppliesInv;
  }

  // --------------------------------------------------- a call does schedule something

  /** A call and its four statements: whatever was pending, the job is up in NVS, complete. */
  lemma CallSchedules(s: State, job: Job)
    requires Inv(s) && s.pc.Up? && job.url != ""
    ensures var t := NextTimes(Do(s, Schedule(job)), 4);
            t == s.(nvs := Keys(true, Some(job.url), if job.sha == "" then None else Some(job.sha)),
                    schedules := s.schedules + [job], held := |s.schedules|,
                    pc := Boot, arg := Job("", ""), local := Job("", ""), taken := -1)
  {
    var s0 := Do(s, Schedule(job));
    OneMore(s0, 0);
    OneMore(s0, 1);
    OneMore(s0, 2);
    OneMore(s0, 3);
    assert s0 == s.(arg := job, pc := SetUrl);
    hide NextTimes, AppliesInv, HeldInv;
    assert NextTimes(s0, 1) == s0.(log := [PutUrl(job.url)], pc := SetSha);
    assert NextTimes(s0, 2) == s0.(log := [PutUrl(job.url), ShaWrite(job)], pc := SetFlag);
    var s3 := s0.(log := ScheduleLog(job), pc := CommitSchedule);
    assert NextTimes(s0, 3) == s3;
    ScheduleCommitted(s3);
  }

  lemma ScheduleCommitted(s: State)
    requires s.pc.CommitSchedule? && s.log == ScheduleLog(s.arg)
    ensures Statement(s) ==
              s.(nvs := KeysOf(s.arg), log := [], schedules := s.schedules + [s.arg], held := |s.schedules|,
                 pc := Boot, arg := Job("", ""), local := Job("", ""), taken := -1)
  {
    assert s.log[..|s.log|] == ScheduleLog(s.arg)[..3];
    ReplayOfSchedule(s.nvs, s.arg, 3);
    hide Replay, ScheduleLog;
  }

  /** So a call that nothing interrupts leads to exactly one apply, of that job with its own sha, if
      and only if its url has at most 255 characters; a sha of up to 64 is kept. */
  lemma CallThenBoot(s: State, job: Job)
    requires Inv(s) && s.pc.Up? && job.url != ""
    ensures var t := NextTimes(NextTimes(Do(s, Schedule(job)), 4), 8);
            && !t.nvs.flag && t.schedules == s.schedules + [job]
            && t.applies == if |job.url| <= 255
                            then s.applies + [Apply(|s.schedules|, Job(job.url, if |job.sha| <= 64 then job.sha else ""))]
                            else s.applies
  {
    CallSchedules(s, job);
    var t := NextTimes(Do(s, Schedule(job)), 4);
    hide NextTimes;
    UndisturbedBoot(t);
  }

  function Nexts(n: nat): seq<Action> {
    if n == 0 then [] else Nexts(n - 1) + [Next]
  }

  lemma {:induction false} RunNexts(actions: seq<Action>, n: nat)
    ensures Run(actions + Nexts(n)) == NextTimes(Run(actions), n)
  {
    hide Run, Statement, NextTimes, Do;
    OneMore(Run(actions), n);
    if n > 0 {
      RunNexts(actions, n - 1);
      RunOneMore(actions + Nexts(n - 1), Next);
      NextIsStatement(Run(actions + Nexts(n - 1)));
      OneMore(Run(actions), n - 1);
      assert actions + Nexts(n) == actions + Nexts(n - 1) + [Next];
    } else {
      assert actions + [] == actions;
    }
  }

  lemma NextIsStatement(s: State)
    ensures Do(s, Next) == Statement(s)
  {
    hide Statement;
  }

  lemma RunOneMore(actions: seq<Action>, a: Action)
    ensures Run(actions + [a]) == Do(Run(actions), a)
  {
    assert (actions + [a])[..|actions|] == actions;
  }

  /** A device with nothing pending: its first boot, one call, and the boot after that. */
  lemma FirstUpdate(job: Job)
    requires job.url != ""
    ensures Run([Next, Schedule(job)] + Nexts(12)).applies ==
              if |job.url| <= 255 then [Apply(0, Job(job.url, if |job.sha| <= 64 then job.sha else ""))] else []
  {
    hide *;
    var s := Run([Next]);
    FirstBoot();
    RunOneMore([Next], Schedule(job));
    assert [Next] + [Schedule(job)] == [Next, Schedule(job)];
    CallThenBoot(s, job);
    RunNexts([Next, Schedule(job)], 12);
    NextTimesAdds(Do(s, Schedule(job)), 4, 8);
  }

  lemma FirstBoot()
    ensures var s := Run([Next]); Inv(s) && s.pc.Up? && s.applies == [] && s.schedules == []
  {
    assert [Next][..0] == [];
    assert Run([Next]) == INIT.(pc := Up);
  }

  /** Power can fail anywhere, and any number of the uncommitted writes be there afterwards; a boot without
      network and a failed update leave NVS as it is; an update that succeeds ends in a boot. */
  lemma AnyPartCanSurvive(s: State, k: nat)
    requires k <= |s.log|
    ensures Do(s, Crash(k)) == Reboot(s, k)
    ensures s.pc in {SetUrl, SetSha, SetFlag} ==> Do(s, WriteFails(k)) == Persist(s, k).(pc := Up)
    ensures s.pc.Boot? ==> Do(s, NoNetwork) == s.(pc := Up)
    ensures s.pc.Applying? ==> Do(s, Finish(false)) == s.(pc := Up) && Do(s, Finish(true)) == Reboot(s, |s.log|)
  {
  }

  /** Power failing in a boot that finds a flag: the schedule waits for the next one if and only
      if the erasing of the flag has not reached NVS; otherwise it is lost. */
  lemma InterruptedBootKeepsIff(s: State, k: nat)
    requires Inv(s) && k <= |s.log| && s.nvs.flag && !Scheduling(s.pc)
    ensures Reboot(s, k).nvs.flag <==> k == 0
    ensures k == 0 ==> Reboot(s, k).nvs == s.nvs && Reboot(s, k).held == s.held
  {
    assert s.log[..k] == ERASE_LOG[..k];
    ReplayOfErase(s.nvs, k);
    hide Replay, ERASE_LOG, AppliesInv;
  }

  // ----------------------------------------------- interrupted over another's flag

  lemma {:induction false} NextTimesKeepInv(s: State, n: nat)
    requires Inv(s)
    ensures Inv(NextTimes(s, n))
  {
    if n > 0 {
      NextTimesKeepInv(s, n - 1);
      StatementKeepsInv(NextTimes(s, n - 1));
    }
    hide Inv, Statement;
  }

  /** What is up in NVS after an interruption that keeps k writes, the flag not among them. */
  lemma InterruptedKeys(s: State, k: nat)
    requires k <= |s.log| && RaiseFlag !in s.log[..k] && Inv(s) && Scheduling(s.pc)
    ensures var t := Reboot(s, k);
            && t.nvs == Replay(s.nvs, s.log[..k]) && t.nvs.flag == s.nvs.flag && t.held == s.held
            && t.schedules == s.schedules && t.applies == s.applies && t.log == [] && t.pc.Boot?
  {
    assert s.log[..k] == ScheduleLog(s.arg)[..k];
    ReplayOfSchedule(s.nvs, s.arg, k);
    hide Replay, ScheduleLog, AppliesInv;
  }

  /** A schedule call interrupted at any of its statements, with any of its writes kept: the
      next boot, left alone, keeps every apply with its own url and sha if and only if the
      writes kept do not mix. */
  lemma InterruptedSafelyIff(s: State, k: nat)
    requires Inv(s) && Scheduling(s.pc) && k <= |s.log|
    ensures AppliesInv(NextTimes(Reboot(s, k), 8)) <==> !Mixes(s, k)
  {
    if Mixes(s, k) {
      InterruptedKeys(s, k);
      UndisturbedBoot(Reboot(s, k));
      var t := NextTimes(Reboot(s, k), 8);
      assert t.applies[|s.applies|] == Apply(s.held, HandOut(Replay(s.nvs, s.log[..k])).value);
    } else {
      RebootKeepsInv(s, k);
      NextTimesKeepInv(Reboot(s, k), 8);
    }
    hide NextTimes, Reboot, Replay, HandOut, Handed, HeldInv, PcInv, LogInv;
  }

  /** The schedule whose flag is up gets its own apply at that boot if and only if the writes
      kept leave what the keys hand out for it. */
  lemma HeldSurvivesIff(s: State, k: nat)
    requires Inv(s) && Scheduling(s.pc) && s.nvs.flag && k <= |s.log| && RaiseFlag !in s.log[..k]
    requires Handed(s.schedules[s.held]).Some?
    ensures NextTimes(Reboot(s, k), 8).applies == s.applies + [Apply(s.held, Handed(s.schedules[s.held]).value)]
       <==> HandOut(Replay(s.nvs, s.log[..k])) == Handed(s.schedules[s.held])
  {
    InterruptedKeys(s, k);
    UndisturbedBoot(Reboot(s, k));
    var t, own := NextTimes(Reboot(s, k), 8), Apply(s.held, Handed(s.schedules[s.held]).value);
    hide NextTimes, Reboot, Replay, HandOut, Handed, Inv;
    if t.applies == s.applies + [own] { assert t.applies[|s.applies|] == own; }
  }

  /** Which interruptions those are.  With only the url kept, it is the new url with the sha
      that was there; with url and sha kept, the new job under the old flag. */
  lemma MixesIff(s: State, k: nat)
    requires Inv(s) && Scheduling(s.pc) && k <= |s.log|
    ensures Mixes(s, k) <==>
            && s.nvs.flag
            && match k
               case 1 => |s.arg.url| < URL_BUF
                         && Some(Job(s.arg.url, ShaRead(s.nvs))) != Handed(s.schedules[s.held])
               case 2 => |s.arg.url| < URL_BUF && Handed(s.arg) != Handed(s.schedules[s.held])
               case _ => false
    ensures k == 1 && s.nvs.flag && s.nvs == KeysOf(s.schedules[s.held]) ==>
              (Mixes(s, k) <==> |s.arg.url| < URL_BUF && s.arg.url != s.schedules[s.held].url)
  {
    assert s.log[..k] == ScheduleLog(s.arg)[..k];
    ReplayOfSchedule(s.nvs, s.arg, k);
    KeysHandOut(s.arg);
    hide Replay, ScheduleLog, AppliesInv;
  }

  /** A write that is refused leaves the same keys as a power failure there. */
  lemma RefusedIsInterrupted(s: State, kept: nat)
    requires s.pc in {SetUrl, SetSha, SetFlag}
    ensures Do(Do(s, WriteFails(kept)), Crash(0)) == Reboot(s, Kept(s, kept))
  {
    var t := Do(s, WriteFails(kept));
    assert t.log[..0] == [];
    hide GetStr;
  }

  /** A schedule made over another's flag, and a power failure after its url has reached NVS:
      the next boot applies the new url with the sha of the old schedule. */
  lemma OutOfOrderGoesStale(s: State, job: Job)
    requires Inv(s) && s.pc.Up? && s.nvs.flag && s.nvs == KeysOf(s.schedules[s.held])
    requires job.url != "" && |job.url| < URL_BUF && job.url != s.schedules[s.held].url
    ensures var held, t := s.schedules[s.held], NextTimes(Do(Do(Do(s, Schedule(job)), Next), Crash(1)), 8);
            && t.applies == s.applies + [Apply(s.held, Job(job.url, ShaRead(KeysOf(held))))]
            && t.schedules == s.schedules && !AppliesInv(t)
  {
    var s2 := Do(Do(s, Schedule(job)), Next);
    assert s2 == s.(arg := job, log := [PutUrl(job.url)], pc := SetSha);
    CallKeepsInv(s, Do(s, Schedule(job)));
    StatementKeepsInv(Do(s, Schedule(job)));
    MixesIff(s2, 1);
    InterruptedSafelyIff(s2, 1);
    InterruptedKeys(s2, 1);
    UndisturbedBoot(Reboot(s2, 1));
    assert s2.log[..1] == [PutUrl(job.url)];
    ReplayOfThree(s.nvs, PutUrl(job.url), DropUrl, DropSha);
    hide NextTimes, Replay, Inv, AppliesInv, Statement;
  }
}
