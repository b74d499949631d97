// The daily spend kept in NVS: main/settings.c.  Power may fail between any two
// NVS writes of a call.

module DailyBudget {

  const U32_MAX: nat := 0xFFFF_FFFF

  type U32 = x: int | 0 <= x <= U32_MAX witness 0

  // ----------------------------------------------------------------- the day index

  predicate IsLeap(year: nat) {
    year % 4 == 0 && (year % 100 != 0 || year % 400 == 0)
  }

  function MonthDays(year: nat, month: nat): nat {
    if month == 2 then (if IsLeap(year) then 29 else 28)
    else if month in {4, 6, 9, 11} then 30
    else 31
  }

  datatype Date = Date(year: nat, month: nat, day: nat)

  predicate IsDate(d: Date) {
    1 <= d.month <= 12 && 1 <= d.day <= MonthDays(d.year, d.month)
  }

  /** tm_yday of the first of the month. */
  function MonthStart(year: nat, month: nat): nat {
    if month <= 1 then 0 else MonthStart(year, month - 1) + MonthDays(year, month - 1)
  }

  function DayIndex(d: Date): int
    requires IsDate(d)
  {
    d.year * 366 + MonthStart(d.year, d.month) + d.day - 1
  }

  predicate Earlier(a: Date, b: Date) {
    a.year < b.year || (a.year == b.year && (a.month < b.month || (a.month == b.month && a.day < b.day)))
  }

  lemma {:induction false} MonthsFollow(year: nat, m: nat, n: nat)
    requires 1 <= m <= n <= 13
    ensures MonthStart(year, m) + (if m < n then MonthDays(year, m) else 0) <= MonthStart(year, n)
    decreases n - m
  {
    if m + 1 < n { MonthsFollow(year, m, n - 1); }
  }

  lemma YearHasAtMost366(year: nat)
    ensures MonthStart(year, 13) <= 366
  {
    assert MonthStart(year, 2) == 31;
    assert MonthStart(year, 3) <= 60;
    assert MonthStart(year, 5) <= 121;
    assert MonthStart(year, 7) <= 182;
    assert MonthStart(year, 9) <= 244;
    assert MonthStart(year, 11) <= 305;
  }

  /** The index orders dates as the calendar does; so no two dates share one. */
  lemma DayIndexOrdersDates(a: Date, b: Date)
    requires IsDate(a) && IsDate(b)
    ensures Earlier(a, b) <==> DayIndex(a) < DayIndex(b)
    ensures a == b <==> DayIndex(a) == DayIndex(b)
  {
    EarlierIsLess(a, b);
    EarlierIsLess(b, a);
  }

  lemma EarlierIsLess(a: Date, b: Date)
    requires IsDate(a) && IsDate(b)
    ensures Earlier(a, b) ==> DayIndex(a) < DayIndex(b)
  {
    YearHasAtMost366(a.year);
    MonthsFollow(a.year, a.month, 13);
    if a.year == b.year && a.month < b.month { MonthsFollow(a.year, a.month, b.month); }
  }

  /** 0 stands for a clock not set yet: no date from 1970 on has it, and none overflows. */
  lemma DayIndexIsU32(d: Date)
    requires IsDate(d) && 1970 <= d.year <= 9999
    ensures 0 < DayIndex(d) <= U32_MAX
  {
    YearHasAtMost366(d.year);
    MonthsFollow(d.year, d.month, 13);
  }

  /** The days before each month, of an ordinary year and of a leap year. */
  lemma MonthsAreGregorian(year: nat)
    ensures var leap := if year % 400 == 0 || (year % 4 == 0 && year % 100 != 0) then 1 else 0;
            && MonthStart(year, 1) == 0 && MonthStart(year, 2) == 31 && MonthStart(year, 3) == 59 + leap
            && MonthStart(year, 4) == 90 + leap && MonthStart(year, 5) == 120 + leap && MonthStart(year, 6) == 151 + leap
            && MonthStart(year, 7) == 181 + leap && MonthStart(year, 8) == 212 + leap && MonthStart(year, 9) == 243 + leap
            && MonthStart(year, 10) == 273 + leap && MonthStart(year, 11) == 304 + leap
            && MonthStart(year, 12) == 334 + leap && MonthStart(year, 13) == 365 + leap
  {
    assert MonthStart(year, 1) == 0;
    assert MonthStart(year, 3) == MonthStart(year, 2) + MonthDays(year, 2);
    assert MonthStart(year, 5) == MonthStart(year, 4) + 30;
    assert MonthStart(year, 7) == MonthStart(year, 6) + 30;
    assert MonthStart(year, 9) == MonthStart(year, 8) + 31;
    assert MonthStart(year, 11) == MonthStart(year, 10) + 31;
    assert MonthStart(year, 13) == MonthStart(year, 12) + 31;
  }

  /** The day after, in the same year. */
  function NextDay(d: Date): Date {
    if MonthStart(d.year, d.month) + d.day < MonthStart(d.year, d.month + 1) then d.(day := d.day + 1)
    else Date(d.year, d.month + 1, 1)
  }

  /** A year starts at 366 times its number and goes up by one a day, to the 31st of December. */
  lemma DayIndexCountsDays(d: Date)
    requires IsDate(d)
    ensures IsDate(Date(d.year, 1, 1)) && DayIndex(Date(d.year, 1, 1)) == 366 * d.year
    ensures d.month != 12 || d.day != 31 ==> IsDate(NextDay(d)) && DayIndex(NextDay(d)) == DayIndex(d) + 1
  {
    MonthsAreGregorian(d.year);
  }

  // ------------------------------------------------------------------------- the code

  datatype Nvs = Nvs(spent: U32, day: U32)

  /** `lasts` is how many more NVS writes happen before the power goes. */
  class Budget {
    var nvs: Nvs
    var lasts: nat

    constructor ()
      ensures nvs == Nvs(0, 0)
    {
      nvs, lasts := Nvs(0, 0), 0;
    }

    method SetSpent(v: U32)
      modifies this
      ensures if old(lasts) > 0 then nvs == old(nvs).(spent := v) && lasts == old(lasts) - 1 else nvs == old(nvs) && lasts == 0
    {
      if lasts > 0 { nvs, lasts := nvs.(spent := v), lasts - 1; }
    }

    method SetDay(v: U32)
      modifies this
      ensures if old(lasts) > 0 then nvs == old(nvs).(day := v) && lasts == old(lasts) - 1 else nvs == old(nvs) && lasts == 0
    {
      if lasts > 0 { nvs, lasts := nvs.(day := v), lasts - 1; }
    }

    method RollIfNewDay(today: U32)
      modifies this
      ensures nvs == Rolled(old(nvs), today, old(lasts))
      ensures lasts == if RollsOver(old(nvs), today) then (if old(lasts) < 2 then 0 else old(lasts) - 2) else old(lasts)
    {
      if today == 0 { return; }
      var storedDay := nvs.day;
      if storedDay != today {
        SetSpent(0);
        SetDay(today);
      }
    }

    /** What the caller reads counts only if the power held out. */
    method GetTodayMils(today: U32) returns (mils: U32)
      modifies this
      ensures nvs == After(old(nvs), Get(today), old(lasts)) && mils == nvs.spent
    {
      RollIfNewDay(today);
      return nvs.spent;
    }

    method Accumulate(mils: U32, today: U32)
      modifies this
      ensures nvs == After(old(nvs), Spend(mils, today), old(lasts))
    {
      if mils == 0 { return; }
      RollIfNewDay(today);
      var cur := nvs.spent;
      var next := if cur > U32_MAX - mils then U32_MAX else cur + mils;
      SetSpent(next);
    }

    method ResetSpent(today: U32)
      modifies this
      ensures nvs == After(old(nvs), Reset(today), old(lasts))
    {
      SetSpent(0);
      if today != 0 { SetDay(today); }
    }
  }

  // ------------------------------------------------------------------ what they come to

  datatype Call = Get(today: U32) | Spend(mils: U32, today: U32) | Reset(today: U32)

  /** A call, and how many NVS writes the power lasts for. */
  datatype Event = Event(call: Call, lasts: nat)

  predicate RollsOver(nvs: Nvs, today: U32) {
    today != 0 && nvs.day != today
  }

  function Rolled(nvs: Nvs, today: U32, lasts: nat): Nvs {
    if !RollsOver(nvs, today) || lasts == 0 then nvs
    else if lasts == 1 then nvs.(spent := 0)
    else Nvs(0, today)
  }

  /** The power lasts for the rollover, if there is one, and the write after it. */
  predicate Accepts(nvs: Nvs, today: U32, lasts: nat) {
    lasts > if RollsOver(nvs, today) then 2 else 0
  }

  function SaturatingAdd(a: U32, b: U32): U32 {
    if a + b > U32_MAX then U32_MAX else a + b
  }

  function After(nvs: Nvs, call: Call, lasts: nat): Nvs {
    match call
    case Get(today) => Rolled(nvs, today, lasts)
    case Spend(mils, today) =>
      if mils == 0 then nvs
      else
        var rolled := Rolled(nvs, today, lasts);
        if Accepts(nvs, today, lasts) then rolled.(spent := SaturatingAdd(rolled.spent, mils)) else rolled
    case Reset(today) =>
      if lasts == 0 then nvs
      else if lasts == 1 || today == 0 then nvs.(spent := 0)
      else Nvs(0, today)
  }

  function Run(events: seq<Event>): Nvs {
    if events == [] then Nvs(0, 0)
    else After(Run(events[..|events| - 1]), events[|events| - 1].call, events[|events| - 1].lasts)
  }

  function AtMost(n: nat): U32 {
    if n > U32_MAX then U32_MAX else n
  }

  function Sum(amounts: seq<U32>): nat {
    if amounts == [] then 0 else Sum(amounts[..|amounts| - 1]) + amounts[|amounts| - 1]
  }

  /** One call's effect on the amounts that count. */
  function Keep(before: seq<U32>, nvs: Nvs, e: Event): seq<U32> {
    match e.call
    case Get(today) => if RollsOver(nvs, today) && e.lasts > 0 then [] else before
    case Spend(mils, today) =>
      if mils == 0 then before
      else
        var base := if RollsOver(nvs, today) && e.lasts > 0 then [] else before;
        if Accepts(nvs, today, e.lasts) then base + [mils] else base
    case Reset(_) => if e.lasts > 0 then [] else before
  }

  /** The amounts accepted since a call last found another day stored, or reset the spend. */
  function Kept(events: seq<Event>): seq<U32> {
    if events == [] then []
    else Keep(Kept(events[..|events| - 1]), Run(events[..|events| - 1]), events[|events| - 1])
  }

  lemma SumAppend(amounts: seq<U32>, x: U32)
    ensures Sum(amounts + [x]) == Sum(amounts) + x
  {
    assert (amounts + [x])[..|amounts|] == amounts;
  }

  lemma KeepIsSum(before: seq<U32>, nvs: Nvs, e: Event)
    requires nvs.spent == AtMost(Sum(before))
    ensures After(nvs, e.call, e.lasts).spent == AtMost(Sum(Keep(before, nvs, e)))
  {
    assert Sum([]) == 0;
    if e.call.Spend? {
      SumAppend(before, e.call.mils);
      SumAppend([], e.call.mils);
    }
    hide Sum;
  }

  /** Wherever the power fails, and whatever the clock says: what is stored is the sum
      of those amounts, as far as 32 bits go. */
  lemma {:induction false} SpendIsSumKept(events: seq<Event>)
    ensures Run(events).spent == AtMost(Sum(Kept(events)))
  {
    if events != [] {
      var n := |events| - 1;
      SpendIsSumKept(events[..n]);
      KeepIsSum(Kept(events[..n]), Run(events[..n]), events[n]);
      hide After, Keep, Sum, AtMost;
    }
  }

  /** The calendar's own view: what was accepted on that day, since the last reset. */
  function SpentOn(events: seq<Event>, day: U32): nat {
    if events == [] then 0
    else
      var n := |events| - 1;
      var before, e := SpentOn(events[..n], day), events[n];
      match e.call
      case Get(_) => before
      case Spend(mils, today) =>
        if today == day && Accepts(Run(events[..n]), today, e.lasts) then before + mils else before
      case Reset(_) => if e.lasts > 0 then 0 else before
  }

  /** The clock is set and does not go back. */
  predicate ClockAdvances(events: seq<Event>) {
    && (forall i :: 0 <= i < |events| ==> events[i].call.today != 0)
    && forall i, j :: 0 <= i <= j < |events| ==> events[i].call.today <= events[j].call.today
  }

  function LastDay(events: seq<Event>): U32 {
    if events == [] then 0 else events[|events| - 1].call.today
  }

  lemma {:induction false} StoredDayLags(events: seq<Event>)
    requires ClockAdvances(events)
    ensures var nvs, last := Run(events), LastDay(events);
            && nvs.day <= last
            && (nvs.day == last ==> nvs.spent == AtMost(SpentOn(events, last)))
            && (nvs.day < last ==> SpentOn(events, last) == 0)
    ensures forall d: U32 :: d > LastDay(events) ==> SpentOn(events, d) == 0
  {
    if events != [] {
      var n := |events| - 1;
      var init := events[..n];
      StoredDayLags(init);
      assert LastDay(init) <= LastDay(events) by {
        if n > 0 { assert events[n - 1].call.today <= events[n].call.today; }
      }
      assert events[n].call.today != 0;
    }
  }

  /** With a clock that does not go back, and whatever crashes came before, asking for
      today's spend gives what was accepted today since the last reset. */
  lemma TodayIsToday(events: seq<Event>, today: U32, lasts: nat)
    requires ClockAdvances(events + [Event(Get(today), lasts)]) && lasts >= 2
    ensures After(Run(events), Get(today), lasts) == Nvs(AtMost(SpentOn(events, today)), today)
  {
    var all := events + [Event(Get(today), lasts)];
    assert all[..|events|] == events;
    assert ClockAdvances(events) by {
      forall i | 0 <= i < |events| ensures events[i].call.today != 0 { assert all[i] == events[i]; }
      forall i, j | 0 <= i <= j < |events| ensures events[i].call.today <= events[j].call.today {
        assert all[i] == events[i] && all[j] == events[j];
      }
    }
    StoredDayLags(events);
    assert all[|events|].call.today == today != 0;
    if events != [] { assert all[|events| - 1].call.today <= all[|events|].call.today; }
  }

  // -------------------------------------------------------- a spend, and the power

  /** While the clock is not set, or on the day that is stored, a spend needs one write, and is added;
      nothing else changes. */
  lemma SpendAdds(nvs: Nvs, mils: U32, today: U32, lasts: nat)
    requires today == 0 || today == nvs.day
    ensures After(nvs, Spend(mils, today), lasts) ==
              if mils == 0 || lasts == 0 then nvs
              else nvs.(spent := if nvs.spent + mils > 0xFFFF_FFFF then 0xFFFF_FFFF else nvs.spent + mils)
    ensures After(nvs, Get(today), lasts) == nvs
  {
  }

  /** On a new day it needs three; with fewer the old spend is gone, and the new one is not counted. */
  lemma SpendStartsTheDay(nvs: Nvs, mils: U32, today: U32, lasts: nat)
    requires today != 0 && today != nvs.day && mils > 0
    ensures var nvs' := After(nvs, Spend(mils, today), lasts);
            && nvs'.day == (if lasts >= 2 then today else nvs.day)
            && nvs'.spent == if lasts >= 3 then mils else if lasts >= 1 then 0 else nvs.spent
    ensures var nvs' := After(nvs, Get(today), lasts);
            && nvs'.day == (if lasts >= 2 then today else nvs.day)
            && nvs'.spent == if lasts >= 1 then 0 else nvs.spent
  {
  }
}
