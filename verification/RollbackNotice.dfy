// The notice that an update was rolled back: the end of tab5_ota_apply and
// tab5_ota_mark_valid in main/ota.c, the boot sequence of main/main.c, and a
// two-slot bootloader that reverts an image which was booted but never confirmed.

module RollbackNotice {
  import opened Basics

  /** An image names its version twice: in the app descriptor and as TAB5_FIRMWARE_VER. */
  datatype Image = Image(id: int, descriptor: string, firmware: string)

  datatype Verdict = Valid | New | Pending | Aborted

  datatype Slot = Slot(image: Image, verdict: Verdict)

  datatype Pc =
    | Off
    | EarlyBoot                                        // a pending update may be applied here
    | MarkValid | Compare | Clear | Toast              // app_main, in this order
    | Up
    | Record | Restart                                 // the end of tab5_ota_apply

  /** `attempted` is the NVS key; `attemptedId` numbers the flash that wrote it, as
      `fromId` does for `rolledBack`.  `confirmed` are the flashes marked valid. */
  datatype State = State(
    ota0: Slot, ota1: Slot, bootSlot: int, running: int, pc: Pc,
    attempted: string, attemptedId: int,
    seen: string, rolledBack: bool, fromId: int,
    flashes: nat, confirmed: set<int>, toasts: seq<int>)

  predicate IsInit(s: State) {
    && s.bootSlot == 0 && s.pc.Off?
    && s.ota0.verdict.Valid? && s.ota1.verdict.Aborted?
    && s.ota0.image.id == s.ota1.image.id == -1
    && s.attempted == "" && s.attemptedId == -1 && !s.rolledBack && s.fromId == -1 && s.seen == ""
    && s.flashes == 0 && s.confirmed == {} && s.toasts == []
  }

  /** Power is a boot, Next the next statement of the boot sequence, Flash an update
      that passed its checks, PowerLoss and Crash the same thing. */
  datatype Action = Power | Next | Flash(descriptor: string, firmware: string) | Crash

  function Other(i: int): int {
    1 - i
  }

  function SetSlot(s: State, i: int, slot: Slot): State
  {
    if i == 0 then s.(ota0 := slot) else s.(ota1 := slot)
  }

  function SlotAt(s: State, i: int): Slot
  {
    if i == 0 then s.ota0 else s.ota1
  }

  /** The bootloader: an unconfirmed image is given one boot, then aborted. */
  function Bootloader(s: State): State
  {
    var b := SlotAt(s, s.bootSlot);
    match b.verdict
    case New => SetSlot(s, s.bootSlot, b.(verdict := Pending)).(running := s.bootSlot, pc := EarlyBoot)
    case Pending =>
      SetSlot(s, s.bootSlot, b.(verdict := Aborted))
      .(bootSlot := Other(s.bootSlot), running := Other(s.bootSlot), pc := EarlyBoot)
    case _ => s.(running := s.bootSlot, pc := EarlyBoot)
  }

  function Statement(s: State): State
  {
    var me := SlotAt(s, s.running);
    match s.pc
    case EarlyBoot => s.(pc := MarkValid)
    case MarkValid =>
      if me.verdict.Pending? then
        SetSlot(s, s.running, me.(verdict := Valid)).(confirmed := s.confirmed + {me.image.id}, pc := Compare)
      else s.(pc := Compare)
    case Compare =>
      if s.attempted != "" && s.attempted != me.image.firmware then
        s.(seen := s.attempted, rolledBack := true, fromId := s.attemptedId, pc := Clear)
      else s.(seen := s.attempted, pc := Clear)
    case Clear => (if s.seen != "" then s.(attempted := "") else s).(pc := Toast)
    case Toast => (if s.rolledBack then s.(toasts := s.toasts + [s.fromId], rolledBack := false) else s).(pc := Up)
    case Record =>
      var flashed := SlotAt(s, Other(s.running)).image;
      (if flashed.descriptor != "" then s.(attempted := flashed.descriptor, attemptedId := flashed.id) else s).(pc := Restart)
    case _ => s
  }

  /** An update writes the other slot and makes it the boot slot; the running image
      must itself be confirmed. */
  function FlashOther(s: State, descriptor: string, firmware: string): State
  {
    if s.pc in {EarlyBoot, Up} && SlotAt(s, s.running).verdict.Valid? then
      SetSlot(s, Other(s.running), Slot(Image(s.flashes, descriptor, firmware), New))
      .(bootSlot := Other(s.running), flashes := s.flashes + 1, pc := Record)
    else s
  }

  function Do(s: State, a: Action): State
  {
    match a
    case Power => if s.pc.Off? then Bootloader(s) else s
    case Next => if s.pc.Restart? then PowerDown(s) else Statement(s)
    case Flash(descriptor, firmware) => FlashOther(s, descriptor, firmware)
    case Crash => PowerDown(s)
  }

  /** RAM is lost. */
  function PowerDown(s: State): State {
    s.(pc := Off, seen := "", rolledBack := false, fromId := -1)
  }

  function Run(init: State, actions: seq<Action>): State
  {
    if actions == [] then init else Do(Run(init, actions[..|actions| - 1]), actions[|actions| - 1])
  }

  // ------------------------------------------------------------ one notice a flash

  predicate OncePerFlash(s: State) {
    && Distinct(s.toasts) && (forall id :: id in s.toasts ==> 0 <= id < s.flashes)
    && s.ota0.image.id < s.flashes && s.ota1.image.id < s.flashes
    && (s.attempted != "" ==> s.attemptedId !in s.toasts && 0 <= s.attemptedId < s.flashes)
    && (s.pc.Record? ==> SlotAt(s, Other(s.running)).image.id >= 0 && SlotAt(s, Other(s.running)).image.id !in s.toasts)
    && (s.pc.Clear? ==> s.seen == s.attempted)
    && (s.rolledBack ==> s.pc.Clear? || s.pc.Toast?)
    && (s.rolledBack ==> s.fromId !in s.toasts && 0 <= s.fromId < s.flashes)
    && (s.rolledBack && s.pc.Clear? ==> s.seen != "" && s.fromId == s.attemptedId)
    && (s.rolledBack && s.pc.Toast? ==> s.attempted == "")
  }

  lemma StatementKeepsOncePerFlash(s: State)
    requires OncePerFlash(s)
    ensures OncePerFlash(Statement(s))
  {
  }

  lemma DoKeepsOncePerFlash(s: State, a: Action)
    requires OncePerFlash(s)
    ensures OncePerFlash(Do(s, a))
  {
    StatementKeepsOncePerFlash(s);
    hide Statement;
  }

  /** However often the device crashes, no flash is announced as reverted twice. */
  lemma {:induction false} OneToastPerFlash(init: State, actions: seq<Action>)
    requires IsInit(init)
    ensures OncePerFlash(Run(init, actions))
    ensures Distinct(Run(init, actions).toasts)
    ensures forall id :: id in Run(init, actions).toasts ==> 0 <= id < Run(init, actions).flashes
  {
    if actions != [] {
      OneToastPerFlash(init, actions[..|actions| - 1]);
      DoKeepsOncePerFlash(Run(init, actions[..|actions| - 1]), actions[|actions| - 1]);
    }
  }

  // ------------------------------------------------- no notice for one that survived

  /** Never confirmed, and never to be booted again. */
  predicate Dead(s: State, id: int)
  {
    id !in s.confirmed && id < s.flashes && !Bootable(s.ota0, id) && !Bootable(s.ota1, id)
  }

  predicate Bootable(slot: Slot, id: int) {
    slot.image.id == id && (slot.verdict.New? || slot.verdict.Pending?)
  }

  /** The two names of a version agree. */
  predicate OneName(slot: Slot) {
    slot.image.id >= 0 ==> slot.image.descriptor == slot.image.firmware != ""
  }

  predicate Wrote(s: State, i: int)
  {
    SlotAt(s, i).image.id >= 0 && s.attemptedId == SlotAt(s, i).image.id && s.attempted == SlotAt(s, i).image.descriptor
  }

  predicate SlotsInv(s: State) {
    && 0 <= s.bootSlot < 2
    && s.ota0.image.id < s.flashes && s.ota1.image.id < s.flashes
    && (s.ota0.image.id == s.ota1.image.id ==> s.ota0.image.id == -1)
    && OneName(s.ota0) && OneName(s.ota1)
    && (SlotAt(s, s.bootSlot).verdict.Valid? || SlotAt(s, Other(s.bootSlot)).verdict.Valid?)
    && !SlotAt(s, s.bootSlot).verdict.Aborted?
    && SlotAt(s, Other(s.bootSlot)).verdict in {Valid, Aborted}
    && VerdictFits(s, s.ota0) && VerdictFits(s, s.ota1)
    && (forall id :: id in s.confirmed ==> id < s.flashes)
  }

  predicate VerdictFits(s: State, slot: Slot) {
    && (slot.verdict in {New, Pending} ==> slot.image.id >= 0 && slot.image.id !in s.confirmed)
    && (slot.verdict.Valid? && slot.image.id >= 0 ==> slot.image.id in s.confirmed)
  }

  predicate NoticeInv(s: State) {
    && SlotsInv(s)
    && (s.pc.Record? || s.pc.Restart? ==> s.running == Other(s.bootSlot) && SlotAt(s, s.bootSlot).verdict.New?)
    && (s.pc in {EarlyBoot, MarkValid, Compare, Clear, Toast, Up} ==>
          s.running == s.bootSlot && !SlotAt(s, s.bootSlot).verdict.New?)
    && (s.attempted != "" ==> Wrote(s, s.bootSlot) || Dead(s, s.attemptedId) || (s.pc.Record? && Wrote(s, s.running)))
    && (s.attempted != "" ==> s.attemptedId >= 0)
    && (s.pc in {Toast, Up} ==> s.attempted == "")
    && (s.pc.Clear? ==> s.seen == s.attempted)
    && (s.rolledBack ==> s.pc in {Clear, Toast} && Dead(s, s.fromId))
    && (forall id :: id in s.toasts ==> Dead(s, id))
  }

  /** Power fails between making a new image bootable and recording its version, while
      the key still names the running image: a key left over from an earlier crash. */
  predicate Misfires(s: State, a: Action)
  {
    a.Crash? && s.pc.Record? && s.attempted != "" && s.attemptedId == SlotAt(s, s.running).image.id
  }

  predicate NamesAgree(a: Action) {
    a.Flash? ==> a.descriptor == a.firmware != ""
  }

  lemma DeadStays(s: State, s': State, id: int)
    requires Dead(s, id) && s'.flashes >= s.flashes
    requires forall x :: x in s'.confirmed && x !in s.confirmed ==> Bootable(s.ota0, x) || Bootable(s.ota1, x)
    requires Bootable(s'.ota0, id) ==> id >= s.flashes || Bootable(s.ota0, id)
    requires Bootable(s'.ota1, id) ==> id >= s.flashes || Bootable(s.ota1, id)
    ensures Dead(s', id)
  {
  }

  lemma DeadAllStay(s: State, a: Action)
    requires NoticeInv(s)
    ensures forall id :: Dead(s, id) ==> Dead(Do(s, a), id)
  {
    var s' := Do(s, a);
    hide NoticeInv;
    forall id | Dead(s, id) ensures Dead(s', id) {
      DeadStays(s, s', id);
    }
  }

  lemma StatementKeepsSlotsInv(s: State)
    requires NoticeInv(s)
    ensures SlotsInv(Statement(s))
  {
    hide Dead, Wrote;
    if !s.pc.MarkValid? {
      assert SameSlots(s, Statement(s));
      hide Statement, VerdictFits, OneName;
    }
  }

  predicate SameSlots(s: State, s': State) {
    && s'.confirmed == s.confirmed && s'.ota0 == s.ota0 && s'.ota1 == s.ota1
    && s'.bootSlot == s.bootSlot && s'.flashes == s.flashes
  }

  lemma DoKeepsSlotsInv(s: State, a: Action)
    requires NoticeInv(s) && NamesAgree(a)
    ensures SlotsInv(Do(s, a))
  {
    StatementKeepsSlotsInv(s);
    hide Dead, Statement;
  }

  lemma StatementKeepsNoticeInv(s: State)
    requires NoticeInv(s) && !s.pc.Restart?
    ensures NoticeInv(Statement(s))
  {
    assert Do(s, Next) == Statement(s);
    DoKeepsSlotsInv(s, Next);
    DeadAllStay(s, Next);
    if s.pc.Compare? && s.attempted != "" && Wrote(s, s.bootSlot) {
      assert SlotAt(s, s.running).image.firmware == s.attempted;
    }
    hide SlotsInv, Dead;
  }

  lemma DoKeepsNoticeInv(s: State, a: Action)
    requires NoticeInv(s) && NamesAgree(a) && !Misfires(s, a)
    ensures NoticeInv(Do(s, a))
  {
    DoKeepsSlotsInv(s, a);
    DeadAllStay(s, a);
    if a.Next? && !s.pc.Restart? {
      StatementKeepsNoticeInv(s);
    } else if a.Power? {
      PowerKeepsNoticeInv(s);
    } else {
      hide SlotsInv, Dead, Statement;
    }
  }

  lemma PowerKeepsNoticeInv(s: State)
    requires NoticeInv(s)
    ensures NoticeInv(Do(s, Power))
  {
    DoKeepsSlotsInv(s, Power);
    DeadAllStay(s, Power);
    var s' := Do(s, Power);
    if s.pc.Off? && s.attempted != "" && Wrote(s, s.bootSlot) && SlotAt(s, s.bootSlot).verdict.Pending? {
      assert Dead(s', s.attemptedId);
    }
    hide Dead;
  }

  predicate NothingMisfires(init: State, actions: seq<Action>) {
    forall i :: 0 <= i < |actions| ==> !Misfires(Run(init, actions[..i]), actions[i])
  }

  lemma {:induction false} RunKeepsNoticeInv(init: State, actions: seq<Action>)
    requires IsInit(init) && NothingMisfires(init, actions)
    requires forall a :: a in actions ==> NamesAgree(a)
    ensures NoticeInv(Run(init, actions))
  {
    if actions != [] {
      var n := |actions| - 1;
      forall i | 0 <= i < n ensures !Misfires(Run(init, actions[..n][..i]), actions[..n][i]) {
        assert actions[..n][..i] == actions[..i];
      }
      RunKeepsNoticeInv(init, actions[..n]);
      assert actions[n] in actions;
      DoKeepsNoticeInv(Run(init, actions[..n]), actions[n]);
    }
  }

  /** No flash that was ever confirmed is announced as reverted, as long as images name
      their version one way and no crash leaves the running image's name behind. */
  lemma {:induction false} SurvivorsAreNotAnnounced(init: State, actions: seq<Action>)
    requires IsInit(init) && NothingMisfires(init, actions)
    requires forall a :: a in actions ==> NamesAgree(a)
    ensures forall id :: id in Run(init, actions).toasts ==> id !in Run(init, actions).confirmed
  {
    RunKeepsNoticeInv(init, actions);
  }

  // --------------------------------------- both conditions are needed, and exactly so

  /** A boot without a crash, from the bootloader to the home screen. */
  function FullBoot(s: State): State {
    Statement(Statement(Statement(Statement(Statement(Bootloader(s))))))
  }

  /** The slot the bootloader goes for: an image booted before and never confirmed gives way to the other. */
  function BootedSlot(s: State): int {
    if SlotAt(s, s.bootSlot).verdict.Pending? then Other(s.bootSlot) else s.bootSlot
  }

  /** Is there a notice when that image runs? */
  predicate Announces(s: State, image: Image) {
    s.attempted != "" && s.attempted != image.firmware
  }

  /** The boot sequence of app_main, all of it. */
  lemma AfterBootloader(s: State)
    requires s.pc.EarlyBoot? && 0 <= s.running < 2 && !s.rolledBack
    ensures var me := SlotAt(s, s.running);
            var marked := if me.verdict.Pending?
                          then SetSlot(s, s.running, me.(verdict := Valid)).(confirmed := s.confirmed + {me.image.id}) else s;
            Statement(Statement(Statement(Statement(Statement(s))))) ==
              if Announces(s, me.image)
              then marked.(seen := s.attempted, attempted := "", fromId := s.attemptedId,
                           toasts := s.toasts + [s.attemptedId], pc := Up)
              else marked.(seen := s.attempted, attempted := "", pc := Up)
  {
    var me := SlotAt(s, s.running);
    var marked := if me.verdict.Pending?
                  then SetSlot(s, s.running, me.(verdict := Valid)).(confirmed := s.confirmed + {me.image.id}) else s;
    assert Statement(s) == s.(pc := MarkValid);
    assert Statement(s.(pc := MarkValid)) == marked.(pc := Compare);
    assert SlotAt(marked, s.running).image == me.image;
    var compared := if Announces(s, me.image)
                    then marked.(seen := s.attempted, rolledBack := true, fromId := s.attemptedId, pc := Clear)
                    else marked.(seen := s.attempted, pc := Clear);
    assert Statement(marked.(pc := Compare)) == compared;
    ClearAndToast(compared);
  }

  lemma ClearAndToast(s: State)
    requires s.pc.Clear? && s.seen == s.attempted
    ensures Statement(Statement(s)) ==
              if s.rolledBack then s.(attempted := "", toasts := s.toasts + [s.fromId], rolledBack := false, pc := Up)
              else s.(attempted := "", pc := Up)
  {
    assert Statement(s) == s.(attempted := "", pc := Toast);
  }

  /** Every boot without a crash, whatever it boots: the key is compared with the name of the image
      that runs, there is a notice if and only if there is a key and it is another name, and
      no key is left. */
  lemma BootAnnouncesIff(s: State)
    requires s.pc.Off? && 0 <= s.bootSlot < 2 && !s.rolledBack
    ensures var up, b := FullBoot(s), BootedSlot(s);
            && up.pc.Up? && up.running == up.bootSlot == b && up.attempted == "" && up.seen == s.attempted
            && up.toasts == s.toasts + if s.attempted != "" && s.attempted != SlotAt(s, b).image.firmware
                                       then [s.attemptedId] else []
  {
    AfterBootloader(Bootloader(s));
    hide Statement;
  }

  /** An update that was booted and not confirmed is reverted by the next boot; it stays unconfirmed,
      is aborted for good, and is announced if and only if a key is there and is not the name of
      the image that is back. */
  lemma RollbackIsAnnouncedIff(s: State)
    requires s.pc.Off? && 0 <= s.bootSlot < 2 && !s.rolledBack
    requires SlotAt(s, s.bootSlot).verdict.Pending? && SlotAt(s, 1 - s.bootSlot).verdict.Valid?
    ensures var up, back := FullBoot(s), 1 - s.bootSlot;
            && up.pc.Up? && up.running == up.bootSlot == back && up.attempted == ""
            && SlotAt(up, back) == SlotAt(s, back)
            && SlotAt(up, s.bootSlot) == SlotAt(s, s.bootSlot).(verdict := Aborted)
            && up.confirmed == s.confirmed && up.flashes == s.flashes
            && up.toasts == s.toasts + if s.attempted != "" && s.attempted != SlotAt(s, back).image.firmware
                                       then [s.attemptedId] else []
  {
    AfterBootloader(Bootloader(s));
    hide Statement;
  }

  /** An update is flashed and recorded, boots, and fails before it is marked valid, at once or a
      statement later. */
  function FlashedAndFailed(s: State, descriptor: string, firmware: string, later: bool): State {
    var booted := Do(Do(Do(Do(s, Flash(descriptor, firmware)), Next), Next), Power);
    Do(if later then Do(booted, Next) else booted, Crash)
  }

  /** The whole run: the image that flashed it is back, and the update is announced as reverted
      if and only if its descriptor has a version and that is another name. */
  lemma FailedUpdateIsAnnouncedIff(s: State, descriptor: string, firmware: string, later: bool)
    requires s.pc in {EarlyBoot, Up} && 0 <= s.running < 2 && SlotAt(s, s.running).verdict.Valid? && s.attempted == ""
    ensures var up, me := FullBoot(FlashedAndFailed(s, descriptor, firmware, later)), SlotAt(s, s.running);
            && up.pc.Up? && up.running == s.running && SlotAt(up, s.running) == me
            && up.flashes == s.flashes + 1 && up.confirmed == s.confirmed && up.attempted == ""
            && up.toasts == s.toasts + if descriptor != "" && descriptor != me.image.firmware then [s.flashes] else []
  {
    hide *;
    var off := FlashedAndFailed(s, descriptor, firmware, later);
    FailedUpdateWaits(s, descriptor, firmware, later);
    RollbackIsAnnouncedIff(off);
  }

  lemma FailedUpdateWaits(s: State, descriptor: string, firmware: string, later: bool)
    requires s.pc in {EarlyBoot, Up} && 0 <= s.running < 2 && SlotAt(s, s.running).verdict.Valid? && s.attempted == ""
    ensures var off := FlashedAndFailed(s, descriptor, firmware, later);
            && off.pc.Off? && 0 <= off.bootSlot < 2 && off.bootSlot == 1 - s.running && !off.rolledBack
            && off.attempted == descriptor && (descriptor != "" ==> off.attemptedId == s.flashes)
            && SlotAt(off, off.bootSlot).verdict.Pending? && SlotAt(off, s.running) == SlotAt(s, s.running)
            && off.flashes == s.flashes + 1 && off.confirmed == s.confirmed && off.toasts == s.toasts
  {
    FlashedAndRecorded(s, descriptor, firmware);
    FailsUnconfirmed(Do(Do(Do(s, Flash(descriptor, firmware)), Next), Next), later);
    hide Do;
  }

  lemma FlashedAndRecorded(s: State, descriptor: string, firmware: string)
    requires s.pc in {EarlyBoot, Up} && 0 <= s.running < 2 && SlotAt(s, s.running).verdict.Valid?
    ensures var flashed := SetSlot(s, Other(s.running), Slot(Image(s.flashes, descriptor, firmware), New))
                           .(bootSlot := Other(s.running), flashes := s.flashes + 1);
            var recorded := if descriptor != "" then flashed.(attempted := descriptor, attemptedId := s.flashes) else flashed;
            Do(Do(Do(s, Flash(descriptor, firmware)), Next), Next) == PowerDown(recorded)
  {
  }

  lemma FailsUnconfirmed(s: State, later: bool)
    requires s.pc.Off? && 0 <= s.bootSlot < 2 && SlotAt(s, s.bootSlot).verdict.New?
    requires s.seen == "" && !s.rolledBack && s.fromId == -1
    ensures var booted := Do(s, Power);
            Do(if later then Do(booted, Next) else booted, Crash) ==
              SetSlot(s, s.bootSlot, SlotAt(s, s.bootSlot).(verdict := Pending)).(running := s.bootSlot)
  {
  }

  lemma BootOutcome(s: State)
    requires s.pc.Off? && 0 <= s.bootSlot < 2 && SlotAt(s, s.bootSlot).verdict.New? && !s.rolledBack
    ensures var s', me := FullBoot(s), SlotAt(s, s.bootSlot).image;
            && s'.pc.Up? && s'.confirmed == s.confirmed + {me.id}
            && s'.toasts == s.toasts + if s.attempted != "" && s.attempted != me.firmware then [s.attemptedId] else []
  {
  }

  /** An update that boots and is confirmed is announced as reverted exactly when the
      image carries two different version names. */
  lemma AnnouncedIffNamesDiffer(s: State, descriptor: string, firmware: string)
    requires s.pc.Up? && 0 <= s.running < 2 && SlotAt(s, s.running).verdict.Valid? && s.attempted == "" && !s.rolledBack
    ensures var s' := FullBoot(Do(Do(Do(s, Flash(descriptor, firmware)), Next), Next));
            && s.flashes in s'.confirmed
            && s'.toasts == s.toasts + if descriptor != "" && descriptor != firmware then [s.flashes] else []
  {
    var s1 := Do(s, Flash(descriptor, firmware));
    var s2 := Do(s1, Next);
    BootOutcome(Do(s2, Next));
  }

  /** After a misfire the next boot announces the confirmed image that was running,
      unless the new one happens to have the same version. */
  lemma MisfireAnnouncesSurvivor(s: State, a: Action)
    requires NoticeInv(s) && Misfires(s, a)
    ensures var s', survivor, flashed := FullBoot(Do(s, a)), SlotAt(s, s.running).image.id, SlotAt(s, s.bootSlot).image;
            && survivor in s'.confirmed
            && (survivor in s'.toasts <==> s.attempted != flashed.firmware)
  {
    BootOutcome(Do(s, a));
    assert !Dead(s, SlotAt(s, s.running).image.id);
  }

  /** An undisturbed boot of a confirmed image with no key left over. */
  lemma QuietBoot(s: State)
    requires s.pc.Off? && 0 <= s.bootSlot < 2 && SlotAt(s, s.bootSlot).verdict.Valid?
    requires s.attempted == s.seen == "" && !s.rolledBack
    ensures FullBoot(s) == s.(pc := Up, running := s.bootSlot)
  {
    var s1 := s.(running := s.bootSlot, pc := EarlyBoot);
    assert Bootloader(s) == s1;
    assert Statement(s1) == s1.(pc := MarkValid);
    assert Statement(s1.(pc := MarkValid)) == s1.(pc := Compare);
    assert Statement(s1.(pc := Compare)) == s1.(pc := Clear);
    assert Statement(s1.(pc := Clear)) == s1.(pc := Toast);
    assert Statement(s1.(pc := Toast)) == s1.(pc := Up);
  }

  /** An update, its version recorded, and the restart. */
  lemma FlashedAndRestarted(s: State, name: string)
    requires s.pc in {EarlyBoot, Up} && 0 <= s.running < 2 && SlotAt(s, s.running).verdict.Valid? && name != ""
    requires s.seen == "" && !s.rolledBack && s.fromId == -1
    ensures var flashed := SetSlot(s, Other(s.running), Slot(Image(s.flashes, name, name), New))
                           .(bootSlot := Other(s.running), flashes := s.flashes + 1);
            && Do(s, Flash(name, name)) == flashed.(pc := Record)
            && Do(Do(Do(s, Flash(name, name)), Next), Next) == flashed.(attempted := name, attemptedId := s.flashes, pc := Off)
  {
  }

  /** A boot of a new image that power leaves right after it has been marked valid. */
  lemma ConfirmedAndCrashed(s: State)
    requires s.pc.Off? && 0 <= s.bootSlot < 2 && SlotAt(s, s.bootSlot).verdict.New?
    requires s.seen == "" && !s.rolledBack && s.fromId == -1
    ensures var me := SlotAt(s, s.bootSlot);
            Do(Do(Do(Do(s, Power), Next), Next), Crash) ==
              SetSlot(s, s.bootSlot, me.(verdict := Valid)).(running := s.bootSlot, confirmed := s.confirmed + {me.image.id})
  {
    var me := SlotAt(s, s.bootSlot);
    var s1 := SetSlot(s, s.bootSlot, me.(verdict := Pending)).(running := s.bootSlot, pc := EarlyBoot);
    assert Do(s, Power) == s1;
    assert Do(s1, Next) == s1.(pc := MarkValid);
    assert Do(s1.(pc := MarkValid), Next) ==
           SetSlot(s1, s.bootSlot, me.(verdict := Valid)).(confirmed := s.confirmed + {me.image.id}, pc := Compare);
  }

  const B := Image(0, "B", "B")
  const C := Image(1, "C", "C")

  /** Update B survives, but power fails before its key is cleared. */
  function AfterB(init: State): State {
    init.(running := 1, ota1 := Slot(B, Valid), bootSlot := 1, flashes := 1, attempted := "B", attemptedId := 0, confirmed := {0})
  }

  lemma UpdateB(init: State)
    requires IsInit(init)
    ensures var s2 := Do(Do(Do(FullBoot(init), Flash("B", "B")), Next), Next);
            Do(Do(Do(Do(s2, Power), Next), Next), Crash) == AfterB(init)
  {
    QuietBoot(init);
    FlashedAndRestarted(init.(pc := Up, running := 0), "B");
    var s2 := init.(running := 0, ota1 := Slot(B, New), bootSlot := 1, flashes := 1, attempted := "B", attemptedId := 0);
    ConfirmedAndCrashed(s2);
    assert init.confirmed + {0} == {0};
    hide Do, FullBoot;
  }

  /** The next boot applies update C early, and power fails before C is recorded. */
  lemma UpdateC(init: State)
    requires IsInit(init)
    ensures var s4 := Do(Do(AfterB(init), Power), Flash("C", "C"));
            && Misfires(s4, Crash)
            && Do(s4, Crash) == AfterB(init).(ota0 := Slot(C, New), bootSlot := 0, flashes := 2)
  {
    var s3 := AfterB(init);
    assert Do(s3, Power) == s3.(pc := EarlyBoot);
    assert Do(s3.(pc := EarlyBoot), Flash("C", "C")) ==
           s3.(ota0 := Slot(C, New), bootSlot := 0, flashes := 2, pc := Record);
  }

  /** How a misfire comes about: C boots, and B, which was confirmed, is announced as reverted. */
  lemma MisfireHappens(init: State)
    requires IsInit(init)
    ensures var s2 := Do(Do(Do(FullBoot(init), Flash("B", "B")), Next), Next);
            var s3 := Do(Do(Do(Do(s2, Power), Next), Next), Crash);
            var s4 := Do(Do(s3, Power), Flash("C", "C"));
            && Misfires(s4, Crash)
            && FullBoot(Do(s4, Crash)).toasts == [0] && 0 in FullBoot(Do(s4, Crash)).confirmed
  {
    UpdateB(init);
    UpdateC(init);
    BootOutcome(AfterB(init).(ota0 := Slot(C, New), bootSlot := 0, flashes := 2));
    hide Do, FullBoot, Misfires;
  }
}
