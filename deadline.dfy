/**
 * The deadline arithmetic of the admin page (src/app/admin/page.tsx): the
 * seconds left in a pet's application window, whether the pet may be
 * settled, the once-a-second countdown step, which pets get a countdown,
 * and the text the countdown is shown as. The clock is the parameter `now`,
 * in whole seconds.
 */
module Deadline {
  import opened Wrappers
  import opened PetModel
  import opened Strings
  import opened Rows

  /** The application window in seconds (100, although the code's comment says five minutes). */
  const MaxWaitTime := 100

  /** Countdowns are only started for pets with less than this many seconds left. */
  const TimerThreshold := 3600

  /** `calculateRemainingSeconds`: `max(0, start + MaxWaitTime - now)`. */
  function RemainingSeconds(start: int, now: int): (r: nat)
    ensures now >= start + MaxWaitTime ==> r == 0
    ensures now < start + MaxWaitTime ==> now + r == start + MaxWaitTime
    ensures r <= MaxWaitTime || now < start
  {
    var left := start + MaxWaitTime - now;
    if left > 0 then left else 0
  }

  /** `getCanHandle`: a full roster, or a window that has strictly passed,
      which is a countdown that was already 0 one second earlier. */
  function CanHandle(p: Pet, now: int): (r: bool)
    ensures r <==> |p.applicants| >= MaxApplicants || RemainingSeconds(p.applicationStartTime, now - 1) == 0
  {
    |p.applicants| >= MaxApplicants || now > p.applicationStartTime + MaxWaitTime
  }

  /** Once a pet may be settled it stays so as the clock advances. */
  lemma CanHandleMonotone(p: Pet, now: int, later: int)
    requires now <= later && CanHandle(p, now)
    ensures CanHandle(p, later)
  {
  }

  /** At the very second the countdown reaches 0 the pet is not yet eligible:
      the remaining-time test uses `>=`, the eligibility test a strict `>`. */
  lemma ZeroRemainingYetNotEligible(p: Pet)
    requires |p.applicants| < MaxApplicants
    ensures RemainingSeconds(p.applicationStartTime, p.applicationStartTime + MaxWaitTime) == 0
    ensures !CanHandle(p, p.applicationStartTime + MaxWaitTime)
    ensures CanHandle(p, p.applicationStartTime + MaxWaitTime + 1)
  {
  }

  /** The view `getPendingPets` builds for a fetched row. */
  function PendingView(p: Pet, now: int): (v: PetView)
    ensures v.pet == p && v.age.None? && v.deadLine.None?
    ensures v.canHandle == Some(CanHandle(p, now))
    ensures v.remainSeconds == Some(RemainingSeconds(p.applicationStartTime, now))
  {
    PetView(p, None, None, Some(RemainingSeconds(p.applicationStartTime, now)), Some(CanHandle(p, now)))
  }

  /** The condition `getPendingPets` starts a countdown under: a truthy
      remaining time that is positive and under an hour. The truthiness test
      adds nothing to the test for a positive value. */
  predicate ShouldStartTimer(v: PetView): (r: bool)
    ensures r <==> v.remainSeconds.Some? && 0 < v.remainSeconds.value < TimerThreshold
  {
    v.remainSeconds.Some? && v.remainSeconds.value != 0
    && v.remainSeconds.value > 0 && v.remainSeconds.value < TimerThreshold
  }

  /** Since the window is shorter than the hour threshold, every pet whose
      window has opened gets a countdown exactly while the window is running. */
  lemma TimerStartsWhileWindowRuns(p: Pet, now: int)
    requires p.applicationStartTime <= now
    ensures ShouldStartTimer(PendingView(p, now)) <==> now < p.applicationStartTime + MaxWaitTime
  {
  }

  /** The per-second step for one entry: an entry of pet `petId` with a
      defined counter counts down with a floor at 0 and becomes eligible on
      reaching 0; every other entry is left alone. */
  function TickView(v: PetView, petId: int): (w: PetView)
    ensures !(v.pet.id == petId && v.remainSeconds.Some?) ==> w == v
    ensures v.pet.id == petId && v.remainSeconds.Some? ==>
      var n := if v.remainSeconds.value - 1 > 0 then v.remainSeconds.value - 1 else 0;
      && w.remainSeconds == Some(n)
      && w.canHandle == (if n == 0 then Some(true) else v.canHandle)
      && w.pet == v.pet && w.age == v.age && w.deadLine == v.deadLine
  {
    if v.pet.id == petId && v.remainSeconds.Some? then
      var n := if v.remainSeconds.value - 1 > 0 then v.remainSeconds.value - 1 else 0;
      if n == 0 then v.(remainSeconds := Some(0), canHandle := Some(true))
      else v.(remainSeconds := Some(n))
    else v
  }

  /** The tick applied to the whole list, as the interval's `map` does. */
  function TickStep(pets: seq<PetView>, petId: int): (r: seq<PetView>)
    ensures |r| == |pets|
    ensures forall i :: 0 <= i < |pets| ==> r[i] == TickView(pets[i], petId)
    ensures forall i :: 0 <= i < |pets| && pets[i].pet.id != petId ==> r[i] == pets[i]
  {
    seq(|pets|, i requires 0 <= i < |pets| => TickView(pets[i], petId))
  }

  /** Whether this tick brings some entry of `petId` to 0, which makes the
      interval clear itself. */
  predicate TickReachesZero(pets: seq<PetView>, petId: int): (r: bool)
    ensures r <==>
      exists i :: 0 <= i < |pets| && pets[i].pet.id == petId && pets[i].remainSeconds.Some?
        && TickStep(pets, petId)[i].remainSeconds == Some(0)
  {
    exists i :: 0 <= i < |pets| && pets[i].pet.id == petId && pets[i].remainSeconds.Some?
      && pets[i].remainSeconds.value <= 1
  }

  /** `k` ticks of one entry. */
  function TickTimes(v: PetView, k: nat): PetView
    decreases k
  {
    if k == 0 then v else TickTimes(TickView(v, v.pet.id), k - 1)
  }

  /** The live countdown agrees with the formula: starting from the remaining
      seconds at `now`, `k` ticks give the remaining seconds at `now + k`, and
      the entry is marked eligible exactly when some tick has reached 0. */
  lemma {:induction false} CountdownMatchesClock(v: PetView, now: int, k: nat)
    requires v.remainSeconds == Some(RemainingSeconds(v.pet.applicationStartTime, now))
    ensures TickTimes(v, k).remainSeconds == Some(RemainingSeconds(v.pet.applicationStartTime, now + k))
    ensures TickTimes(v, k).canHandle ==
      if k >= 1 && RemainingSeconds(v.pet.applicationStartTime, now + k) == 0 then Some(true) else v.canHandle
    ensures TickTimes(v, k).pet == v.pet
    decreases k
  {
    if k > 0 {
      var w := TickView(v, v.pet.id);
      assert w.remainSeconds == Some(RemainingSeconds(v.pet.applicationStartTime, now + 1));
      CountdownMatchesClock(w, now + 1, k - 1);
      assert now + 1 + (k - 1) == now + k;
    }
  }

  // ------------------------------------------------------- remaining-time text

  /** `calculateRemainingTime`: whole months (of 30 days), else whole days,
      else whole hours, as "more than N <unit>", and under an hour "M:SS";
      the text holds a colon exactly when less than an hour is left. */
  function RemainingTime(total: nat): (r: string)
    ensures ':' in r <==> total < SecondsPerHour
  {
    var seconds := total % 60;
    var minutes := total / 60;
    var hours := minutes / 60;
    var days := hours / 24;
    var months := days / 30;
    assert hours > 0 <==> total >= SecondsPerHour;
    if months > 0 then
      DigitsExclude(NatToString(months), ':');
      "more than " + NatToString(months) + " month"
    else if days > 0 then
      DigitsExclude(NatToString(days), ':');
      "more than " + NatToString(days) + " day"
    else if hours > 0 then
      DigitsExclude(NatToString(hours), ':');
      "more than " + NatToString(hours) + " hour"
    else
      var m := NatToString(minutes);
      assert (m + ":")[|m|] == ':';
      m + ":" + (if seconds < 10 then "0" else "") + NatToString(seconds)
  }

  const SecondsPerHour := 3600
  const SecondsPerDay := 86400
  const SecondsPerMonth := 2592000

  /** Reads "M:SS" back into seconds: digits, a colon, exactly two digits
      below 60. */
  function ReadClock(s: string): Option<nat>
  {
    match IndexOfChar(s, ':')
    case None => None
    case Some(i) => ReadClockParts(s[..i], s[i + 1..])
  }

  /** The minutes and seconds on either side of the colon, read as seconds. */
  function ReadClockParts(m: string, sec: string): Option<nat>
  {
    if m != [] && AllDigits(m) && |sec| == 2 && AllDigits(sec) && ParseNat(sec) < 60
    then Some(ParseNat(m) * 60 + ParseNat(sec))
    else None
  }

  /** The seconds part of the clock text: always two digits, reading back as the seconds. */
  lemma PaddedSeconds(seconds: nat)
    requires seconds < 60
    ensures var sec := (if seconds < 10 then "0" else "") + NatToString(seconds);
      |sec| == 2 && AllDigits(sec) && ParseNat(sec) == seconds
  {
    var sec := (if seconds < 10 then "0" else "") + NatToString(seconds);
    ParseNatToString(seconds);
    if seconds < 10 {
      assert NatToString(seconds) == [DigitChar(seconds)];
      assert sec == ['0', DigitChar(seconds)];
      assert sec[..1] == ['0'] && ['0'][..0] == [];
    }
  }

  /** "M:SS" with digit parts reads back as M * 60 + SS. */
  lemma ReadClockOf(m: string, sec: string)
    requires m != [] && AllDigits(m) && |sec| == 2 && AllDigits(sec) && ParseNat(sec) < 60
    ensures ReadClock(m + ":" + sec) == Some(ParseNat(m) * 60 + ParseNat(sec))
  {
    var s := m + [':'] + sec;
    DigitsExclude(m, ':');
    IndexOfCharAfter(m, ':', sec);
    assert m + ":" + sec == s;
    assert ReadClock(s) == ReadClockParts(s[..|m|], s[|m| + 1..]);
  }

  /** Under an hour the text is the minutes, a colon and the padded seconds. */
  lemma ShortRemainingTime(total: nat)
    requires total < SecondsPerHour
    ensures RemainingTime(total) ==
      NatToString(total / 60) + ":" + ((if total % 60 < 10 then "0" else "") + NatToString(total % 60))
  {
    var seconds, minutes := total % 60, total / 60;
    assert minutes < 60 && minutes / 60 == 0;
    var m, pad, s := NatToString(minutes), (if seconds < 10 then "0" else ""), NatToString(seconds);
    assert m + ":" + pad + s == m + ":" + (pad + s);
  }

  /** Under an hour the text is minutes, a colon and two-digit seconds, and it
      reads back as the same number of seconds. */
  lemma ClockRoundTrip(total: nat)
    requires total < SecondsPerHour
    ensures ReadClock(RemainingTime(total)) == Some(total)
  {
    var seconds, minutes := total % 60, total / 60;
    var m := NatToString(minutes);
    var sec := (if seconds < 10 then "0" else "") + NatToString(seconds);
    ShortRemainingTime(total);
    assert RemainingTime(total) == m + ":" + sec;
    PaddedSeconds(seconds);
    ParseNatToString(minutes);
    ReadClockOf(m, sec);
    assert ParseNat(m) * 60 + ParseNat(sec) == total by {
      assert minutes * 60 + seconds == total;
    }
  }

  /** From an hour on, the unit is the largest of month, day and hour that
      fits, and N is the whole number of that unit. */
  lemma LongRemainingTime(total: nat)
    requires total >= SecondsPerHour
    ensures total >= SecondsPerMonth ==>
      RemainingTime(total) == "more than " + NatToString(total / SecondsPerMonth) + " month"
    ensures SecondsPerDay <= total < SecondsPerMonth ==>
      RemainingTime(total) == "more than " + NatToString(total / SecondsPerDay) + " day"
    ensures total < SecondsPerDay ==>
      RemainingTime(total) == "more than " + NatToString(total / SecondsPerHour) + " hour"
  {
    assert total / 60 / 60 == total / SecondsPerHour;
    assert total / 60 / 60 / 24 == total / SecondsPerDay;
    assert total / 60 / 60 / 24 / 30 == total / SecondsPerMonth;
  }

  /** The deadline line of a card is shown only for a defined counter above 0. */
  function DeadlineText(v: PetView): (t: Option<string>)
    ensures t.Some? <==> v.remainSeconds.Some? && v.remainSeconds.value > 0
    ensures t.Some? ==> t.value == RemainingTime(v.remainSeconds.value)
  {
    if v.remainSeconds.Some? && v.remainSeconds.value > 0 then Some(RemainingTime(v.remainSeconds.value)) else None
  }

  /** On a pet whose window has opened, the deadline line is shown exactly
      while the window runs, and it reads back as the seconds left. */
  lemma DeadlineTextMeaning(p: Pet, now: int)
    requires p.applicationStartTime <= now
    ensures DeadlineText(PendingView(p, now)).Some? <==> now < p.applicationStartTime + MaxWaitTime
    ensures DeadlineText(PendingView(p, now)).Some? ==>
      ReadClock(DeadlineText(PendingView(p, now)).value) == Some(RemainingSeconds(p.applicationStartTime, now))
  {
    var left := RemainingSeconds(p.applicationStartTime, now);
    if left > 0 {
      ClockRoundTrip(left);
    }
  }

  // --------------------------------------------------------------- scenarios

  /** Three distinct applicants on a fresh pet: the start time is the first
      application's, the pet is Pending, and it becomes eligible (within the
      window) exactly with the third application. */
  lemma ThreeApplicantsMakeEligible(p: Pet, a: Application, b: Application, c: Application, now: int)
    requires p.applicants == [] && p.applicationStartTime == 0 && p.status == Adoptable
    requires a.address != b.address && a.address != c.address && b.address != c.address
    requires a.time != 0 && now <= a.time + MaxWaitTime
    ensures AdoptAll(p, [a, b, c]).applicants == [a.address, b.address, c.address]
    ensures AdoptAll(p, [a, b, c]).applicationStartTime == a.time
    ensures AdoptAll(p, [a, b, c]).status == Pending
    ensures !CanHandle(AdoptAll(p, [a]), now) && !CanHandle(AdoptAll(p, [a, b]), now)
    ensures CanHandle(AdoptAll(p, [a, b, c]), now)
  {
    var p1 := AdoptRow(p, a.address, a.time).value;
    var p2 := AdoptRow(p1, b.address, b.time).value;
    var p3 := AdoptRow(p2, c.address, c.time).value;
    assert [a, b, c][1..] == [b, c] && [b, c][1..] == [c] && [a, b][1..] == [b];
    assert AdoptAll(p2, [c]) == p3;
    assert AdoptAll(p1, [b]) == p2;
    assert AdoptAll(p1, [b, c]) == p3;
    assert AdoptAll(p, [a]) == p1;
    assert AdoptAll(p, [a, b]) == p2;
    assert AdoptAll(p, [a, b, c]) == p3;
  }

  /** A lone applicant on a fresh pet: the pet becomes eligible exactly once
      the window opened by that application has strictly passed. */
  lemma LoneApplicantEligibleAfterWindow(p: Pet, a: Application, now: int)
    requires p.applicants == [] && p.applicationStartTime == 0 && a.time != 0
    ensures CanHandle(AdoptAll(p, [a]), now) <==> now > a.time + MaxWaitTime
  {
    assert [a][1..] == [];
    assert AdoptAll(p, [a]) == AdoptRow(p, a.address, a.time).value;
  }
}
