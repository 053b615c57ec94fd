/**
 * One invocation of the runner (`main`): make sure today's schedule exists,
 * find the slot to post in (the first due one, or a synthetic one when the
 * run is forced), pick a video from the pool, title it and upload it; only
 * after the upload succeeds are the chosen id appended to the used registry
 * and the slot marked posted, and both documents saved.
 *
 * The clock, the random draws, the Drive listings and the outcomes of the
 * download and of the upload are the inputs of the run (`Trigger`).
 */
module Runner {
  import opened Options
  import opened Titles
  import opened Videos
  import opened Selection
  import opened StateStore
  import opened DailySchedule

  /** Everything a run receives from outside the state directory. */
  datatype Trigger = Trigger(
    today: string,                    // the ISO date in the schedule's time zone
    now: int,                         // wall-clock seconds since midnight
    forcePost: bool,                  // FORCE_POST is "1"
    listings: seq<seq<DriveFile>>,    // each configured folder's listing, in order
    minuteDraws: seq<GridIndex>,      // one minute draw per slot hour
    shuffleDraw: nat,                 // the shuffle of the candidates
    downloadOk: bool,                 // the download completes
    uploadOk: bool)                   // the upload command exits with success

  /** How a run ends. */
  datatype Outcome =
    | NotDue
    | NoVideos
    | DownloadFailed(file: DriveFile)
    | UploadFailed(file: DriveFile, title: string)
    | Posted(file: DriveFile, title: string, slot: SlotRef)

  datatype RunResult = RunResult(outcome: Outcome, files: StateFiles)

  /** The run as a transition of the state files. */
  function RunSpec(files: StateFiles, t: Trigger): (r: RunResult)
    requires |t.minuteDraws| == |SlotsHours|
    ensures r.outcome.Posted? ==> r.outcome.file in Pool(t.listings)
    ensures r.outcome.Posted? ==> r.outcome.title == FormatTitle(r.outcome.file.name)
  {
    var files1 := EnsuredFiles(files, t.today, t.minuteDraws);
    var sch := TodaySchedule(LoadSchedule(files), t.today, t.minuteDraws);
    match ChosenSlot(sch, t.now, t.forcePost)
    case None => RunResult(NotDue, files1)
    case Some(slot) =>
      var pool := Pool(t.listings);
      if pool == [] then RunResult(NoVideos, files1)
      else
        var p := PickSpec(pool, LoadUsed(files).usedIds, t.shuffleDraw);
        var chosen := p.chosen.value;
        if !t.downloadOk then RunResult(DownloadFailed(chosen), files1)
        else
          var title := FormatTitle(chosen.name);
          if !t.uploadOk then RunResult(UploadFailed(chosen, title), files1)
          else
            RunResult(Posted(chosen, title, slot),
                      StateFiles(Some(Readable(UsedDoc(p.usedAfter + [chosen.id]))),
                                 Some(Readable(MarkPostedSpec(sch, slot)))))
  }

  /** The schedule a run works with. */
  function RunSchedule(files: StateFiles, t: Trigger): ScheduleDoc
    requires |t.minuteDraws| == |SlotsHours|
  {
    TodaySchedule(LoadSchedule(files), t.today, t.minuteDraws)
  }

  /** A run posts exactly when a slot is due or the run is forced, the pool
      is not empty, and both the download and the upload succeed. */
  lemma PostsExactlyWhen(files: StateFiles, t: Trigger)
    requires |t.minuteDraws| == |SlotsHours|
    ensures RunSpec(files, t).outcome.Posted? <==>
              (ShouldPostNow(RunSchedule(files, t).slots, t.now).Some? || t.forcePost)
              && Pool(t.listings) != [] && t.downloadOk && t.uploadOk
    ensures RunSpec(files, t).outcome == NotDue <==>
              ShouldPostNow(RunSchedule(files, t).slots, t.now).None? && !t.forcePost
  {
  }

  /** Nothing is committed unless the upload succeeded: a run that does not
      post leaves the used registry as it was and writes the schedule only
      when it regenerated it, so no posted flag changes. */
  lemma CommitsOnlyAfterUpload(files: StateFiles, t: Trigger)
    requires |t.minuteDraws| == |SlotsHours|
    ensures !RunSpec(files, t).outcome.Posted? ==>
              RunSpec(files, t).files == EnsuredFiles(files, t.today, t.minuteDraws)
              && RunSpec(files, t).files.usedFile == files.usedFile
              && LoadSchedule(RunSpec(files, t).files) == RunSchedule(files, t)
  {
  }

  /** After a successful upload the used registry is the list `pick_one` left
      with the chosen id appended, and the slot is marked posted in today's
      schedule. */
  lemma SuccessCommitsBoth(files: StateFiles, t: Trigger)
    requires |t.minuteDraws| == |SlotsHours|
    requires RunSpec(files, t).outcome.Posted?
    ensures var r := RunSpec(files, t);
            var p := PickSpec(Pool(t.listings), LoadUsed(files).usedIds, t.shuffleDraw);
            p.chosen == Some(r.outcome.file)
            && LoadUsed(r.files).usedIds == p.usedAfter + [r.outcome.file.id]
            && LoadSchedule(r.files) == MarkPostedSpec(RunSchedule(files, t), r.outcome.slot)
            && LoadSchedule(r.files).date == Some(t.today)
  {
  }

  /** The slot posted in is the first due slot; the synthetic slot is used
      only when nothing is due, and then the saved slots are today's as they
      were. */
  lemma PostedSlotIsFirstDue(files: StateFiles, t: Trigger)
    requires |t.minuteDraws| == |SlotsHours|
    requires RunSpec(files, t).outcome.Posted?
    ensures var r := RunSpec(files, t);
            match r.outcome.slot
            case AtIndex(i) =>
              ShouldPostNow(RunSchedule(files, t).slots, t.now) == Some(i)
              && LoadSchedule(r.files).slots[i].posted
            case Forced =>
              ShouldPostNow(RunSchedule(files, t).slots, t.now).None? && t.forcePost
              && LoadSchedule(r.files) == RunSchedule(files, t)
  {
  }

  /** While unused videos remain, a successful run posts one of them. */
  lemma PostsUnusedVideo(files: StateFiles, t: Trigger)
    requires |t.minuteDraws| == |SlotsHours|
    requires RunSpec(files, t).outcome.Posted?
    requires Remaining(Pool(t.listings), LoadUsed(files).usedIds) != []
    ensures RunSpec(files, t).outcome.file.id !in LoadUsed(files).usedIds
    ensures LoadUsed(RunSpec(files, t).files).usedIds
            == LoadUsed(files).usedIds + [RunSpec(files, t).outcome.file.id]
  {
  }

  /** On the day the stored schedule belongs to, a run never clears a posted
      flag: the schedule after the run has the same slots, and every slot
      that was posted still is. */
  lemma PostedFlagsPersistAcrossRun(files: StateFiles, t: Trigger, k: nat)
    requires |t.minuteDraws| == |SlotsHours|
    requires !NeedsRegeneration(LoadSchedule(files), t.today)
    requires k < |LoadSchedule(files).slots| && LoadSchedule(files).slots[k].posted
    ensures |LoadSchedule(RunSpec(files, t).files).slots| == |LoadSchedule(files).slots|
    ensures LoadSchedule(RunSpec(files, t).files).slots[k].posted
  {
    var r := RunSpec(files, t);
    if r.outcome.Posted? {
      PostedFlagsPersist(RunSchedule(files, t), r.outcome.slot, k);
    }
  }

  /** A slot is posted in at most once a day: after a run that posted in
      slot i, a later run on the same day does not post in slot i again. */
  lemma NoSecondPostInSlot(files: StateFiles, t1: Trigger, t2: Trigger, i: nat)
    requires |t1.minuteDraws| == |SlotsHours| && |t2.minuteDraws| == |SlotsHours|
    requires t1.today == t2.today
    requires RunSpec(files, t1).outcome.Posted? && RunSpec(files, t1).outcome.slot == AtIndex(i)
    ensures !(RunSpec(RunSpec(files, t1).files, t2).outcome.Posted?
              && RunSpec(RunSpec(files, t1).files, t2).outcome.slot == AtIndex(i))
  {
    var files1 := RunSpec(files, t1).files;
    SuccessCommitsBoth(files, t1);
    var sch := LoadSchedule(files1);
    assert !NeedsRegeneration(sch, t2.today);
    assert RunSchedule(files1, t2) == sch;
    PostedSlotIsFirstDue(files, t1);
    PostedSlotNeverDue(sch.slots, t2.now, i);
  }

  /** A trace of runs: run k starts from states[k], ends as outs[k] and
      leaves states[k + 1]. */
  ghost predicate IsTrace(states: seq<StateFiles>, ts: seq<Trigger>, outs: seq<Outcome>)
    requires forall k :: 0 <= k < |ts| ==> |ts[k].minuteDraws| == |SlotsHours|
  {
    |states| == |ts| + 1 && |outs| == |ts|
    && forall k :: 0 <= k < |ts| ==> RunSpec(states[k], ts[k]) == RunResult(outs[k], states[k + 1])
  }

  /** The videos posted by a sequence of posting runs. */
  function PostedFiles(outs: seq<Outcome>): (posted: seq<DriveFile>)
    requires forall k :: 0 <= k < |outs| ==> outs[k].Posted?
    ensures |posted| == |outs|
    ensures forall k :: 0 <= k < |outs| ==> posted[k] == outs[k].file
  {
    seq(|outs|, k requires 0 <= k < |outs| => outs[k].file)
  }

  /** The shuffle draws of a sequence of runs. */
  function ShuffleDraws(ts: seq<Trigger>): (draws: seq<nat>)
    ensures |draws| == |ts|
    ensures forall k :: 0 <= k < |ts| ==> draws[k] == ts[k].shuffleDraw
  {
    seq(|ts|, k requires 0 <= k < |ts| => ts[k].shuffleDraw)
  }

  /** A posting run is one step of a cycle: it posts the pick made from the
      registry it loads, and leaves that pick's list plus the posted id. */
  lemma PostingRunIsPickStep(files: StateFiles, t: Trigger, out: Outcome, next: StateFiles)
    requires |t.minuteDraws| == |SlotsHours|
    requires RunSpec(files, t) == RunResult(out, next) && out.Posted?
    ensures Pool(t.listings) != []
    ensures var p := PickSpec(Pool(t.listings), LoadUsed(files).usedIds, t.shuffleDraw);
            p.chosen == Some(out.file) && LoadUsed(next).usedIds == p.usedAfter + [out.file.id]
  {
    SuccessCommitsBoth(files, t);
  }

  /** Runs over the same folders that all post publish, in order, the videos
      that successive picks choose starting from the registry the first run
      loads. */
  lemma TraceFollowsCycle(states: seq<StateFiles>, ts: seq<Trigger>, outs: seq<Outcome>, listings: seq<seq<DriveFile>>)
    requires forall k :: 0 <= k < |ts| ==> |ts[k].minuteDraws| == |SlotsHours| && ts[k].listings == listings
    requires IsTrace(states, ts, outs) && ts != []
    requires forall k :: 0 <= k < |outs| ==> outs[k].Posted?
    ensures Pool(listings) != []
    ensures PostedFiles(outs) == Cycle(Pool(listings), LoadUsed(states[0]).usedIds, ShuffleDraws(ts))
  {
    var pool, draws := Pool(listings), ShuffleDraws(ts);
    var useds := seq(|states|, k requires 0 <= k < |states| => LoadUsed(states[k]).usedIds);
    var posted := PostedFiles(outs);
    forall k | 0 <= k < |ts|
      ensures PickSpec(pool, useds[k], draws[k]).chosen == Some(posted[k])
      ensures useds[k + 1] == PickSpec(pool, useds[k], draws[k]).usedAfter + [posted[k].id]
    {
      PostingRunIsPickStep(states[k], ts[k], outs[k], states[k + 1]);
    }
    assert pool != [] by {
      PostingRunIsPickStep(states[0], ts[0], outs[0], states[1]);
    }
    StepsFormCycle(pool, useds, posted, draws);
  }

  /** No video comes back within a cycle of `main`: while unused videos are
      left for every run, runs that all post publish distinct videos, none of
      them in the registry the first run loaded. */
  lemma NoRepeatAcrossRuns(states: seq<StateFiles>, ts: seq<Trigger>, outs: seq<Outcome>, listings: seq<seq<DriveFile>>)
    requires forall k :: 0 <= k < |ts| ==> |ts[k].minuteDraws| == |SlotsHours| && ts[k].listings == listings
    requires IsTrace(states, ts, outs)
    requires forall k :: 0 <= k < |outs| ==> outs[k].Posted?
    requires |ts| <= |UnusedIds(Pool(listings), LoadUsed(states[0]).usedIds)|
    ensures forall k :: 0 <= k < |outs| ==> outs[k].file.id !in LoadUsed(states[0]).usedIds
    ensures forall j, k :: 0 <= j < k < |outs| ==> outs[j].file.id != outs[k].file.id
  {
    if ts != [] {
      TraceFollowsCycle(states, ts, outs, listings);
      NoRepeatWithinCycle(Pool(listings), LoadUsed(states[0]).usedIds, ShuffleDraws(ts));
      assert forall k :: 0 <= k < |outs| ==> outs[k].file == PostedFiles(outs)[k];
    }
  }

  /** `main`: the same run, step by step, on the store. */
  method Run(store: Store, t: Trigger) returns (outcome: Outcome)
    requires |t.minuteDraws| == |SlotsHours|
    modifies store
    ensures RunResult(outcome, store.Files()) == RunSpec(old(store.Files()), t)
  {
    var sch := EnsureTodaySchedule(store, t.today, t.minuteDraws);
    var slot: SlotRef;
    var due := ShouldPostNow(sch.slots, t.now);
    if due.Some? {
      slot := AtIndex(due.value);
    } else if t.forcePost {
      slot := Forced;
    } else {
      return NotDue;
    }
    var used := new IdList(LoadUsed(store.Files()).usedIds);
    var pool := Pool(t.listings);
    if pool == [] {
      return NoVideos;
    }
    var chosen := PickOne(pool, used, t.shuffleDraw);
    if !t.downloadOk {
      return DownloadFailed(chosen.value);
    }
    var title := FormatTitle(chosen.value.name);
    if !t.uploadOk {
      return UploadFailed(chosen.value, title);
    }
    used.items := used.items + [chosen.value.id];
    store.SaveUsed(UsedDoc(used.items));
    MarkPosted(store, sch, slot);
    return Posted(chosen.value, title, slot);
  }
}
