/**
 * The two state documents and the store that keeps them (`state/used.json`
 * and `state/schedule.json`). Loading a document that is absent, or that
 * cannot be parsed, yields the document's default; saving replaces it.
 */
module StateStore {
  import opened Options

  /** One daily slot: a time of day and whether it has been used. */
  datatype Slot = Slot(hour: int, minute: int, posted: bool)

  /** The schedule document: the day it was drawn for and its slots. */
  datatype ScheduleDoc = ScheduleDoc(date: Option<string>, slots: seq<Slot>)

  /** The used registry: ids of the videos posted since the cycle began. */
  datatype UsedDoc = UsedDoc(usedIds: seq<string>)

  /** What a state file holds when it exists. */
  datatype Stored<D> = Readable(doc: D) | Unreadable

  /** The contents of the state directory: each file may be absent. */
  datatype StateFiles = StateFiles(usedFile: Option<Stored<UsedDoc>>, scheduleFile: Option<Stored<ScheduleDoc>>)

  const DefaultUsed: UsedDoc := UsedDoc([])
  const DefaultSchedule: ScheduleDoc := ScheduleDoc(None, [])

  /** `_load_json`: the parsed document, or the default when the file is
      absent or unreadable. */
  function Load<D>(file: Option<Stored<D>>, default: D): (d: D)
    ensures file.Some? && file.value.Readable? ==> d == file.value.doc
    ensures !(file.Some? && file.value.Readable?) ==> d == default
  {
    match file
    case Some(Readable(doc)) => doc
    case _ => default
  }

  /** `load_used`: an absent or unreadable registry is empty. */
  function LoadUsed(files: StateFiles): (d: UsedDoc)
    ensures files.usedFile.Some? && files.usedFile.value.Readable? ==> d == files.usedFile.value.doc
    ensures d.usedIds != [] ==> files.usedFile.Some? && files.usedFile.value.Readable?
  {
    Load(files.usedFile, DefaultUsed)
  }

  /** `load_schedule`: an absent or unreadable schedule has no date and no slot. */
  function LoadSchedule(files: StateFiles): (d: ScheduleDoc)
    ensures files.scheduleFile.Some? && files.scheduleFile.value.Readable? ==> d == files.scheduleFile.value.doc
    ensures d.date.Some? || d.slots != [] ==> files.scheduleFile.Some? && files.scheduleFile.value.Readable?
  {
    Load(files.scheduleFile, DefaultSchedule)
  }

  /** Saving a document and loading it back gives the document. */
  lemma SaveThenLoad(files: StateFiles, u: UsedDoc, s: ScheduleDoc)
    ensures LoadUsed(files.(usedFile := Some(Readable(u)))) == u
    ensures LoadSchedule(files.(scheduleFile := Some(Readable(s)))) == s
    ensures LoadUsed(files.(scheduleFile := Some(Readable(s)))) == LoadUsed(files)
    ensures LoadSchedule(files.(usedFile := Some(Readable(u)))) == LoadSchedule(files)
  {
  }

  /** The state directory, updated in place by the saves. */
  class Store {
    var usedFile: Option<Stored<UsedDoc>>
    var scheduleFile: Option<Stored<ScheduleDoc>>

    constructor (files: StateFiles)
      ensures Files() == files
    {
      usedFile := files.usedFile;
      scheduleFile := files.scheduleFile;
    }

    function Files(): StateFiles
      reads this
    {
      StateFiles(usedFile, scheduleFile)
    }

    /** `save_used`: the used file now holds d; the schedule file is untouched. */
    method SaveUsed(d: UsedDoc)
      modifies this
      ensures Files() == old(Files()).(usedFile := Some(Readable(d)))
    {
      usedFile := Some(Readable(d));
    }

    /** `save_schedule`: the schedule file now holds d; the used file is untouched. */
    method SaveSchedule(d: ScheduleDoc)
      modifies this
      ensures Files() == old(Files()).(scheduleFile := Some(Readable(d)))
    {
      scheduleFile := Some(Readable(d));
    }
  }
}
