/**
 * The daily schedule: five slots a day, one in each of the hours 8, 11, 14,
 * 17 and 20, at a minute drawn from the 5-minute grid. A slot is due from
 * its time until 20 minutes later, unless it has been posted. Times of day
 * are wall-clock seconds since midnight in the schedule's time zone: the
 * runner's aware datetimes share one tzinfo, so they compare and add by wall
 * clock, and slot times fall on whole minutes, so whole seconds lose nothing.
 */
module DailySchedule {
  import opened Options
  import opened StateStore

  const SlotsHours: seq<int> := [8, 11, 14, 17, 20]
  const MinutesGrid: seq<int> := [0, 5, 10, 15, 20, 25, 30, 35, 40, 45, 50, 55]
  const GraceMinutes: int := 20

  /** A draw of `random.choice(MINUTES_GRID)`, as the position it picks. */
  type GridIndex = i: int | 0 <= i < 12

  /** The stored schedule is not today's, or holds no slot. */
  predicate NeedsRegeneration(doc: ScheduleDoc, today: string)
    ensures doc == DefaultSchedule ==> NeedsRegeneration(doc, today)
  {
    doc.date != Some(today) || doc.slots == []
  }

  /** The slots drawn for a new day, one minute draw per hour. */
  function FreshSlots(draws: seq<GridIndex>): (slots: seq<Slot>)
    requires |draws| == |SlotsHours|
    ensures |slots| == |SlotsHours|
    ensures forall k :: 0 <= k < |slots| ==>
              slots[k].hour == SlotsHours[k] && !slots[k].posted
              && 0 <= slots[k].minute < 60 && slots[k].minute % 5 == 0
    ensures forall j, k :: 0 <= j < k < |slots| ==> slots[j].hour < slots[k].hour
  {
    seq(|SlotsHours|, k requires 0 <= k < |SlotsHours| => Slot(SlotsHours[k], MinutesGrid[draws[k]], false))
  }

  /** Every choice of grid minutes, one per hour, is drawn by some draws. */
  lemma {:induction false} EveryGridChoiceDrawn(minutes: seq<int>)
    requires |minutes| == |SlotsHours|
    requires forall k :: 0 <= k < |minutes| ==> 0 <= minutes[k] < 60 && minutes[k] % 5 == 0
    ensures exists draws: seq<GridIndex> :: |draws| == |SlotsHours|
              && forall k :: 0 <= k < |minutes| ==> FreshSlots(draws)[k].minute == minutes[k]
  {
    var draws: seq<GridIndex> := seq(|minutes|, k requires 0 <= k < |minutes| => minutes[k] / 5);
    assert forall k :: 0 <= k < |minutes| ==> MinutesGrid[draws[k]] == minutes[k];
    assert forall k :: 0 <= k < |minutes| ==> FreshSlots(draws)[k].minute == minutes[k];
  }

  /** `ensure_today_schedule` on the loaded document: a stale or empty
      schedule is replaced by a fresh one for today, any other is kept. */
  function TodaySchedule(stored: ScheduleDoc, today: string, draws: seq<GridIndex>): (doc: ScheduleDoc)
    requires |draws| == |SlotsHours|
    ensures doc.date == Some(today) && doc.slots != []
    ensures !NeedsRegeneration(stored, today) ==> doc == stored
    ensures NeedsRegeneration(stored, today) ==> doc.slots == FreshSlots(draws)
  {
    if NeedsRegeneration(stored, today) then ScheduleDoc(Some(today), FreshSlots(draws)) else stored
  }

  /** The state files after `ensure_today_schedule`: the schedule file is
      written only when the schedule was regenerated. */
  function EnsuredFiles(files: StateFiles, today: string, draws: seq<GridIndex>): (r: StateFiles)
    requires |draws| == |SlotsHours|
    ensures r.usedFile == files.usedFile
    ensures LoadSchedule(r) == TodaySchedule(LoadSchedule(files), today, draws)
    ensures !NeedsRegeneration(LoadSchedule(files), today) ==> r == files
  {
    var stored := LoadSchedule(files);
    if NeedsRegeneration(stored, today)
    then files.(scheduleFile := Some(Readable(TodaySchedule(stored, today, draws))))
    else files
  }

  /** A second call on the same day keeps the schedule of the first, whatever
      it draws. */
  lemma TodayScheduleIdempotent(stored: ScheduleDoc, today: string, d1: seq<GridIndex>, d2: seq<GridIndex>)
    requires |d1| == |SlotsHours| && |d2| == |SlotsHours|
    ensures TodaySchedule(TodaySchedule(stored, today, d1), today, d2) == TodaySchedule(stored, today, d1)
  {
  }

  /** The same on the state files: the second call writes nothing. */
  lemma EnsuredFilesIdempotent(files: StateFiles, today: string, d1: seq<GridIndex>, d2: seq<GridIndex>)
    requires |d1| == |SlotsHours| && |d2| == |SlotsHours|
    ensures EnsuredFiles(EnsuredFiles(files, today, d1), today, d2) == EnsuredFiles(files, today, d1)
  {
    TodayScheduleIdempotent(LoadSchedule(files), today, d1, d2);
  }

  /** Wall-clock seconds since midnight at which a slot opens. */
  function SlotTime(s: Slot): (t: int)
    ensures 0 <= s.minute < 60 ==> t / 3600 == s.hour && t % 3600 == s.minute * 60
  {
    s.hour * 3600 + s.minute * 60
  }

  /** An unposted slot whose grace window [time, time + 20 min) holds now.
      The delay it reports, in whole minutes, is below the grace. */
  predicate IsDue(s: Slot, now: int)
    ensures IsDue(s, now) ==> !s.posted && 0 <= (now - SlotTime(s)) / 60 < GraceMinutes
  {
    !s.posted && SlotTime(s) <= now < SlotTime(s) + GraceMinutes * 60
  }

  /** A slot is due in one window only: a grace period later it is not. */
  lemma DueOnceAWindow(s: Slot, now: int)
    requires IsDue(s, now)
    ensures !IsDue(s, now + GraceMinutes * 60)
  {
  }

  /** `should_post_now`: the position of the first due slot, in list order. */
  function ShouldPostNow(slots: seq<Slot>, now: int): (r: Option<nat>)
    ensures r.Some? ==> r.value < |slots| && IsDue(slots[r.value], now)
    ensures r.Some? ==> forall j :: 0 <= j < r.value ==> !IsDue(slots[j], now)
    ensures r.None? <==> forall j :: 0 <= j < |slots| ==> !IsDue(slots[j], now)
  {
    if slots == [] then None
    else if IsDue(slots[0], now) then Some(0)
    else
      match ShouldPostNow(slots[1..], now)
      case None => None
      case Some(i) => Some(i + 1)
  }

  /** A posted slot is never the one returned. */
  lemma PostedSlotNeverDue(slots: seq<Slot>, now: int, k: nat)
    requires k < |slots| && slots[k].posted
    ensures ShouldPostNow(slots, now) != Some(k)
  {
  }

  /** A slot at 14:07 is due at 14:25 and at 14:26:59, and no longer at 14:27
      or 14:28: the grace window is 20 minutes, closed on the left and open on
      the right. */
  lemma GraceWindowExample()
    ensures ShouldPostNow([Slot(14, 7, false)], 14 * 3600 + 25 * 60) == Some(0)
    ensures ShouldPostNow([Slot(14, 7, false)], 14 * 3600 + 26 * 60 + 59) == Some(0)
    ensures ShouldPostNow([Slot(14, 7, false)], 14 * 3600 + 27 * 60) == None
    ensures ShouldPostNow([Slot(14, 7, false)], 14 * 3600 + 28 * 60) == None
    ensures ShouldPostNow([Slot(14, 7, false)], 14 * 3600 + 7 * 60 - 1) == None
  {
  }

  /** The grace windows of the grid slots never overlap, so at most one slot
      of a freshly drawn day is due at any time. */
  lemma {:induction false} FreshSlotsAtMostOneDue(draws: seq<GridIndex>, now: int, j: nat, k: nat)
    requires |draws| == |SlotsHours| && j < k < |SlotsHours|
    ensures !(IsDue(FreshSlots(draws)[j], now) && IsDue(FreshSlots(draws)[k], now))
  {
    var s := FreshSlots(draws);
    assert s[j].hour + 3 <= s[k].hour by {
      assert SlotsHours[j] + 3 <= SlotsHours[k];
    }
  }

  /** A reference to the slot to mark: one of the schedule's slots, or the
      synthetic slot of a forced run, which belongs to no schedule. */
  datatype SlotRef = AtIndex(index: nat) | Forced

  /** The slot a run posts in: the first due slot, or the forced one. */
  function ChosenSlot(doc: ScheduleDoc, now: int, forcePost: bool): (r: Option<SlotRef>)
    ensures r.Some? && r.value.AtIndex? ==> ShouldPostNow(doc.slots, now) == Some(r.value.index)
    ensures r == Some(Forced) <==> ShouldPostNow(doc.slots, now).None? && forcePost
    ensures r.None? <==> ShouldPostNow(doc.slots, now).None? && !forcePost
  {
    match ShouldPostNow(doc.slots, now)
    case Some(i) => Some(AtIndex(i))
    case None => if forcePost then Some(Forced) else None
  }

  /** `mark_posted` on the document: the referenced slot becomes posted and
      nothing else changes; the forced slot changes nothing. */
  function MarkPostedSpec(doc: ScheduleDoc, ref: SlotRef): (r: ScheduleDoc)
    requires ref.AtIndex? ==> ref.index < |doc.slots|
    ensures r.date == doc.date && |r.slots| == |doc.slots|
    ensures ref.AtIndex? ==> r.slots[ref.index] == doc.slots[ref.index].(posted := true)
    ensures forall k :: 0 <= k < |doc.slots| && ref != AtIndex(k) ==> r.slots[k] == doc.slots[k]
    ensures ref.Forced? ==> r == doc
  {
    match ref
    case AtIndex(i) => doc.(slots := doc.slots[i := doc.slots[i].(posted := true)])
    case Forced => doc
  }

  /** Marking never clears a posted flag. */
  lemma PostedFlagsPersist(doc: ScheduleDoc, ref: SlotRef, k: nat)
    requires ref.AtIndex? ==> ref.index < |doc.slots|
    requires k < |doc.slots| && doc.slots[k].posted
    ensures MarkPostedSpec(doc, ref).slots[k].posted
  {
  }

  /** Once marked, a slot is not due again that day, whatever the time. */
  lemma MarkedSlotNotDueAgain(doc: ScheduleDoc, i: nat, now: int)
    requires i < |doc.slots|
    ensures ShouldPostNow(MarkPostedSpec(doc, AtIndex(i)).slots, now) != Some(i)
  {
    PostedSlotNeverDue(MarkPostedSpec(doc, AtIndex(i)).slots, now, i);
  }

  /** The schedule as the runner holds it between loading and saving. */
  class Schedule {
    var date: Option<string>
    var slots: seq<Slot>

    constructor (doc: ScheduleDoc)
      ensures Doc() == doc
    {
      date := doc.date;
      slots := doc.slots;
    }

    function Doc(): ScheduleDoc
      reads this
    {
      ScheduleDoc(date, slots)
    }
  }

  /** The loop of `ensure_today_schedule` that appends one slot per hour. */
  method DrawSlots(draws: seq<GridIndex>) returns (slots: seq<Slot>)
    requires |draws| == |SlotsHours|
    ensures slots == FreshSlots(draws)
  {
    slots := [];
    var k := 0;
    while k < |SlotsHours|
      invariant 0 <= k <= |SlotsHours|
      invariant slots == FreshSlots(draws)[..k]
    {
      slots := slots + [Slot(SlotsHours[k], MinutesGrid[draws[k]], false)];
      k := k + 1;
    }
  }

  /** `ensure_today_schedule`: load, regenerate and save when stale or empty. */
  method EnsureTodaySchedule(store: Store, today: string, draws: seq<GridIndex>) returns (sch: Schedule)
    requires |draws| == |SlotsHours|
    modifies store
    ensures fresh(sch)
    ensures sch.Doc() == TodaySchedule(LoadSchedule(old(store.Files())), today, draws)
    ensures store.Files() == EnsuredFiles(old(store.Files()), today, draws)
  {
    var stored := LoadSchedule(store.Files());
    sch := new Schedule(stored);
    if stored.date != Some(today) || stored.slots == [] {
      var slots := DrawSlots(draws);
      sch := new Schedule(ScheduleDoc(Some(today), slots));
      store.SaveSchedule(sch.Doc());
    }
  }

  /** `mark_posted`: flag the slot in place, then save the whole schedule. */
  method MarkPosted(store: Store, sch: Schedule, ref: SlotRef)
    requires ref.AtIndex? ==> ref.index < |sch.slots|
    modifies store, sch
    ensures sch.Doc() == MarkPostedSpec(old(sch.Doc()), ref)
    ensures store.Files() == old(store.Files()).(scheduleFile := Some(Readable(sch.Doc())))
  {
    if ref.AtIndex? {
      sch.slots := sch.slots[ref.index := sch.slots[ref.index].(posted := true)];
    }
    store.SaveSchedule(sch.Doc());
  }
}
