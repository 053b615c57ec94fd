# Daily Shorts runner — a Dafny model

`youtube_runner.py` is a bot that posts one short video per daily slot, with
five slots a day. A scheduler invokes it often. Each run does the following:

1. It makes sure a schedule exists for today (Europe/Paris). A schedule has
   five slots, at hours 8, 11, 14, 17 and 20, each at a random minute on the
   5-minute grid.
2. It looks for the first unposted slot whose 20-minute grace window contains
   the current time. When no slot is due and `FORCE_POST=1`, it uses a
   synthetic slot instead.
3. It lists the videos of the configured Google Drive folders and picks one
   whose id is not in the used registry. When every video has been used, the
   registry is cleared and a new cycle starts.
4. It downloads the video, derives a title from its file name, and uploads
   it with `youtube-upload`.
5. Only when the upload succeeds does it append the id to the registry and
   mark the slot posted. Both state documents are then saved.

The model is split into these modules:

| file | module | what it holds |
|---|---|---|
| `options.dfy` | `Options` | the optional value |
| `titles.dfy` | `Titles` | `format_title`, with the pieces of `pathlib` and `str` it relies on |
| `videos.dfy` | `Videos` | the case-insensitive extension filter and the pool |
| `store.dfy` | `StateStore` | the two documents, `_load_json` with its defaults, and the store class with its saves |
| `schedule.dfy` | `DailySchedule` | `ensure_today_schedule`, `should_post_now`, `mark_posted` |
| `selection.dfy` | `Selection` | `pick_one`, and what successive picks do over a cycle |
| `runner.dfy` | `Runner` | `main`, as a pure transition of the state files and as a method on the store |

What the runner gets from outside is passed in as values:

- today's date and the wall-clock time of day, in whole seconds;
- the random draws;
- each folder's listing;
- whether the download and the upload succeed.

The runner's aware datetimes share one `tzinfo`, so they compare and add by
wall-clock time. Slot times fall on whole minutes. The due test on whole
seconds since midnight is therefore exact.

The imperative parts of the source are methods that are proved against pure
specification functions:

- `pick_one` clears the caller's list in place. It is modelled by `Selection.PickOne` on an `IdList` object.
- `ensure_today_schedule` builds its slots in a loop. It is modelled by `DailySchedule.DrawSlots` and `DailySchedule.EnsureTodaySchedule`.
- `mark_posted` flags a slot in place and saves. It is modelled by `DailySchedule.MarkPosted`.
- `main` is modelled by `Runner.Run`, proved equal to `Runner.RunSpec`.

Three places where the code does something other than what its comments or
documentation say. The model follows the code:

- **Case and emoji are kept.** The docstring of `format_title` shows a title
  re-cased and stripped of emoji. The code does neither: the title text is an
  unchanged run of the file's stem (`Titles.TitleKeepsStemText`).
- **The date test is loose.** The test is described as removing a leading
  `YYYY-MM-DD - ` date. The code removes everything up to the first `" - "`
  whenever one occurs and the first ten characters hold exactly two `-`.
  `Titles.DatePrefixDropped` states it in that generality. For example, a
  stem `X-Men-Dark - Clip` becomes `Clip`.
- **The bracket step cuts at the first `[`.** The comments at lines 57 and 59
  say the step removes bracketed parts such as `[HhVM9-9scog]`. The code
  keeps only what precedes the first `[`, stripped, as soon as the stem holds
  both `[` and `]`. Text after the `]` goes too: `Homer [x] Bart` becomes
  `Homer` (`Titles.TextAfterBracketDropped`). A `]` placed before the `[`
  also triggers the cut: `Homer ] Bart [draft` becomes `Homer ] Bart`
  (`Titles.ClosingBracketFirst`). `Titles.CutAtFirstBracket` states the rule
  for every stem.

The two documents are saved one after the other, not atomically. After a
successful upload the used registry is written first and the schedule second.

## Model

| member | source | states |
|---|---|---|
| Titles.LastIndexOf | youtube_runner.py:56 | the position of the last occurrence of a character, and none exactly when it does not occur (the search `pathlib` uses for the last '/' and the last '.') |
| Titles.BaseName | youtube_runner.py:56 | the file name of a path has no '/', and a plain name is its own file name |
| Titles.BaseNameOfPath | youtube_runner.py:56 | the name of "<dir>/<n>" is n, for any directory part and any last component n that is neither empty nor "." |
| Titles.TrailingComponentIgnored | youtube_runner.py:56 | a trailing '/' or "/." does not change the name |
| Titles.Stem | youtube_runner.py:56 | the stem is a prefix of the name; when a suffix is removed it starts at the last '.', which is neither the first nor the last character |
| Titles.IsSpace | youtube_runner.py:61 | space, tab, newline and carriage return are whitespace for `str.strip()`; no visible ASCII character is |
| Titles.LeadingSpaces | youtube_runner.py:61 | counts exactly the leading whitespace characters (`str.isspace`) |
| Titles.StripTrailing | youtube_runner.py:61 | a prefix of s with only whitespace after it and no whitespace at its end |
| Titles.Strip | youtube_runner.py:61 | `str.strip()`: the run of s after the leading whitespace, followed by only whitespace, with no whitespace at either end |
| Titles.BeforeFirst | youtube_runner.py:61 | `split("[")[0]`: the longest prefix without the separator, followed by the separator when shorter than s |
| Titles.Find | youtube_runner.py:63-64 | the first position where the separator occurs, and none exactly when it does not occur anywhere |
| Titles.CountChar | youtube_runner.py:63 | `count("-")`: zero exactly when the character does not occur |
| Titles.Truncated | youtube_runner.py:63-66 | `s[:n]`: a prefix of s of length n, or all of s when it is shorter |
| Titles.DropBracketed | youtube_runner.py:60-61 | the stem comes back unchanged unless it holds both '[' and ']'; when it holds both, no '[' is left and the result is no longer than the stem |
| Titles.CutAtFirstBracket | youtube_runner.py:60-61 | for every stem "<head>[<tail>" with no '[' in head and a ']' anywhere, the result is head stripped, whatever tail holds |
| Titles.DropDatePrefix | youtube_runner.py:63-64 | the date step keeps a suffix of its input, and keeps all of it when the first ten characters do not hold exactly two '-' |
| Titles.DateCutAtFirstSeparator | youtube_runner.py:63-64 | when the first ten characters hold exactly two '-', the result is what follows the first " - " |
| Titles.CleanName | youtube_runner.py:58-64 | the cleaned text is no longer than the stem; it has no '[' when the stem holds both brackets; a stem that lacks one of the brackets is kept as is when its first ten characters do not hold exactly two '-', and also when it holds no " - " at all |
| Titles.FormatTitle | youtube_runner.py:50-66 | the title starts with "Simpsons Short - ", and what follows the label is a prefix of the cleaned stem; its length is that of label and text, or 95 when that is longer, so the text is kept up to the cut |
| Titles.DropBracketedIsRun | youtube_runner.py:60-61 | the bracket step keeps a contiguous run of the stem |
| Titles.TitleTextIsRun | youtube_runner.py:56-66 | the text after the label is a contiguous run of the stem, at an offset the lemma returns |
| Titles.TitleKeepsStemText | youtube_runner.py:51-66 | the text after the label occurs unchanged in the stem: case, accents and emoji are kept, contrary to the docstring |
| Titles.TitleDropsBracketedPart | youtube_runner.py:60-61 | when the stem holds both '[' and ']', the text after the label has no '[' |
| Titles.DatePrefixDropped | youtube_runner.py:63-64 | "<head> - <rest>" becomes rest when head has no space and its first ten characters hold exactly two '-'; a date such as 2025-07-04 is one case |
| Titles.NoSeparatorKept | youtube_runner.py:63 | without " - " the date step changes nothing |
| Titles.StemOfPlainName | youtube_runner.py:56 | the stem of "<stem>.<ext>" with no '/' and a non-empty extension is stem |
| Titles.BracketedIdDropped | youtube_runner.py:60-61 | "<head> [<id>]<after>" becomes head when head has no '[' and no whitespace at its ends, whatever follows the ']' |
| Titles.ClosingBracketFirst | youtube_runner.py:60-61 | a ']' before the '[' triggers the cut: "Homer ] Bart [draft" becomes "Homer ] Bart" |
| Titles.TextAfterBracketDropped | youtube_runner.py:60-61 | text after the ']' is dropped: "Homer [x] Bart" becomes "Homer" |
| Titles.DatedBracketedClean | youtube_runner.py:58-64 | the stem "<date> - <text> [<id>]" cleans to text |
| Titles.DatedBracketedTitle | youtube_runner.py:50-66 | "<date> - <text> [<id>].<ext>" gets the title "Simpsons Short - <text>", cut to 95 characters |
| Titles.FrinkExample | youtube_runner.py:50-66 | "2025-07-04 - LE PROFESSEUR FRINK [xYz123].mp4" gets the title "Simpsons Short - LE PROFESSEUR FRINK" |
| Videos.LowerChar | youtube_runner.py:141 | upper-case ASCII letters map to lower case; every other character is kept |
| Videos.Lower | youtube_runner.py:141 | lower-casing keeps the length and works character by character |
| Videos.IsVideoName | youtube_runner.py:141 | a name that passes has at least four characters and ends, in either case, with '4', 'v' or 'm' |
| Videos.LowerIdempotent | youtube_runner.py:141 | lower-casing twice is lower-casing once |
| Videos.VideoTestIgnoresCase | youtube_runner.py:141 | a name passes exactly when its lower-cased form passes |
| Videos.FilterVideos | youtube_runner.py:141 | a file is kept exactly when its lower-cased name ends with .mp4, .mov, .m4v or .webm; nothing is added |
| Videos.Pool | youtube_runner.py:143-147 | a file is in the pool exactly when it is in some folder's listing and passes the extension test |
| Videos.FilterVideosAppend | youtube_runner.py:141 | filtering a concatenation is concatenating the filtered parts |
| Videos.FilterVideosIdempotent | youtube_runner.py:141 | filtering twice is filtering once |
| Videos.PoolIsFilteredConcat | youtube_runner.py:143-147 | the pool is the filter applied to all listings concatenated, in order |
| Videos.LowerAppend | youtube_runner.py:141 | lower-casing a concatenation lower-cases each part |
| Videos.VideoByExtension | youtube_runner.py:141 | a name ending with any casing of a video extension passes |
| Videos.NotVideoByLastChar | youtube_runner.py:141 | a name whose last character is not 4, v or m in either case fails |
| Videos.UpperCaseExtensionAccepted | youtube_runner.py:141 | "clip.MP4" passes |
| Videos.MixedCaseWebmAccepted | youtube_runner.py:141 | "Homer.WebM" passes |
| Videos.TextFileRejected | youtube_runner.py:141 | "notes.txt" fails |
| StateStore.Load | youtube_runner.py:69-75 | a readable document is returned as stored; an absent or unreadable one gives the default |
| StateStore.LoadUsed | youtube_runner.py:83 | a readable registry is returned as stored; a registry with ids comes only from a readable file |
| StateStore.LoadSchedule | youtube_runner.py:85 | a readable schedule is returned as stored; a schedule with a date or a slot comes only from a readable file |
| StateStore.SaveThenLoad | youtube_runner.py:83-86 | saving one document and loading it back gives that document, and the other document is unaffected |
| StateStore.Store.SaveUsed | youtube_runner.py:84 | the used file holds the saved document; the schedule file is untouched |
| StateStore.Store.SaveSchedule | youtube_runner.py:86 | the schedule file holds the saved document; the used file is untouched |
| DailySchedule.NeedsRegeneration | youtube_runner.py:91 | the default document, with no date and no slot, always needs a new schedule |
| DailySchedule.FreshSlots | youtube_runner.py:93-96 | one slot per hour 8, 11, 14, 17, 20, in that order; each minute is on the 5-minute grid below 60, and no slot is posted |
| DailySchedule.EveryGridChoiceDrawn | youtube_runner.py:94-95 | every assignment of grid minutes to the five hours is drawn by some draws |
| DailySchedule.TodaySchedule | youtube_runner.py:88-101 | the result is dated today and has slots; a stored schedule for today with slots is kept as is; otherwise the slots are freshly drawn |
| DailySchedule.EnsuredFiles | youtube_runner.py:90-98 | the schedule file is rewritten only when regenerating; the used file is untouched; loading gives today's schedule |
| DailySchedule.TodayScheduleIdempotent | youtube_runner.py:91 | a second call on the same day returns the first call's schedule, whatever it draws |
| DailySchedule.EnsuredFilesIdempotent | youtube_runner.py:91-98 | a second call on the same day writes nothing |
| DailySchedule.SlotTime | youtube_runner.py:110-111 | the slot's time of day decodes back to its hour and minute, for a minute below 60 |
| DailySchedule.IsDue | youtube_runner.py:108-113 | a due slot is unposted, and the delay reported in whole minutes is at least 0 and below the 20-minute grace |
| DailySchedule.DueOnceAWindow | youtube_runner.py:112 | a slot due now is not due 20 minutes later |
| DailySchedule.ShouldPostNow | youtube_runner.py:103-117 | the result is the first slot in list order that is unposted and has slot time <= now < slot time + 20 minutes; none exactly when no slot is |
| DailySchedule.PostedSlotNeverDue | youtube_runner.py:108-109 | a posted slot is never returned |
| DailySchedule.GraceWindowExample | youtube_runner.py:112 | an unposted slot at 14:07 is due at 14:25 and at 14:26:59, and not at 14:27, at 14:28 or before 14:07 |
| DailySchedule.FreshSlotsAtMostOneDue | youtube_runner.py:14-16 | no two slots of a freshly drawn day are due at the same time |
| DailySchedule.ChosenSlot | youtube_runner.py:185-191 | the run uses the first due slot; the synthetic slot only when nothing is due and the run is forced; no slot otherwise |
| DailySchedule.MarkPostedSpec | youtube_runner.py:119-121 | the referenced slot becomes posted with its time unchanged; the date and every other slot are unchanged; the synthetic slot changes nothing |
| DailySchedule.PostedFlagsPersist | youtube_runner.py:119-121 | marking never clears a posted flag |
| DailySchedule.MarkedSlotNotDueAgain | youtube_runner.py:107-121 | once marked, a slot is not returned again, whatever the time |
| DailySchedule.DrawSlots | youtube_runner.py:93-96 | the loop builds the freshly drawn slots |
| DailySchedule.EnsureTodaySchedule | youtube_runner.py:88-101 | the schedule held is today's schedule, and the store is left as the regeneration rule says |
| DailySchedule.MarkPosted | youtube_runner.py:119-121 | the in-memory schedule is marked and the whole schedule is saved |
| Selection.Remaining | youtube_runner.py:150 | a file remains exactly when it is in the pool and its id is not used |
| Selection.PickSpec | youtube_runner.py:149-155 | if some file is unused: an unused file of the pool is chosen and the used list is kept. Otherwise the used list is emptied, and the choice is none exactly when the pool is empty and otherwise a file of the pool |
| Selection.EveryCandidateReachable | youtube_runner.py:154-155 | every unused file, or every file once all are used, is chosen by some shuffle |
| Selection.UnusedIdsEmptyIffNoneRemain | youtube_runner.py:150-151 | no unused id is left exactly when no file of the pool remains, the case where a new cycle starts |
| Selection.Cycle | youtube_runner.py:200-216 | successive successful runs pick one file of the pool each |
| Selection.UnusedIdsShrink | youtube_runner.py:216 | appending an unused id leaves one unused id fewer |
| Selection.PickStep | youtube_runner.py:150-155 | while an unused id is left, a pick keeps the used list and takes an unused file |
| Selection.NoRepeatWithinCycle | youtube_runner.py:149-155 | while unused ids remain for every run, the runs pick distinct videos, none used before |
| Selection.StepsFormCycle | youtube_runner.py:149-155 | picks that each start from the list the previous one left, with its id appended, are the picks of a cycle |
| Selection.NewCycleAfterExhaustion | youtube_runner.py:151-153 | once every video is used, the next pick starts a registry that holds only its own id |
| Selection.IdList.constructor | youtube_runner.py:193 | the list holds the loaded ids |
| Selection.PickOne | youtube_runner.py:149-155 | the in-place pick returns the specified choice and leaves the caller's list as specified |
| Runner.RunSpec | youtube_runner.py:183-220 | a posted file comes from the pool and is titled by its name |
| Runner.PostsExactlyWhen | youtube_runner.py:185-198 | a run posts exactly when a slot is due or the run is forced, the pool is not empty, and the download and the upload succeed; it ends as not due exactly when no slot is due and the run is not forced |
| Runner.CommitsOnlyAfterUpload | youtube_runner.py:214-220 | a run that does not post leaves the used file untouched and writes the schedule only when regenerating it, so no posted flag changes |
| Runner.SuccessCommitsBoth | youtube_runner.py:214-217 | after a successful upload the saved registry is `pick_one`'s list plus the chosen id, and the saved schedule is today's with the slot marked |
| Runner.PostedSlotIsFirstDue | youtube_runner.py:185-187 | the slot posted in is the first due one and is saved as posted; the synthetic slot is used only when nothing is due, and then the saved slots are today's unchanged |
| Runner.PostsUnusedVideo | youtube_runner.py:200-216 | while unused videos remain, a successful run posts an unused one and the registry grows by exactly its id |
| Runner.PostedFlagsPersistAcrossRun | youtube_runner.py:184-217 | within the stored schedule's day, a run keeps the number of slots and never clears a posted flag |
| Runner.NoSecondPostInSlot | youtube_runner.py:103-121 | after a run that posted in slot i, a later run on the same day does not post in slot i |
| Runner.PostingRunIsPickStep | youtube_runner.py:200-217 | a posting run posts `pick_one`'s choice from the registry it loads, and saves that list with the posted id appended |
| Runner.TraceFollowsCycle | youtube_runner.py:183-220 | successive runs over the same folders that all post publish, in order, the videos of a cycle of picks starting from the first run's registry |
| Runner.NoRepeatAcrossRuns | youtube_runner.py:149-217 | while unused videos remain for every run, successive posting runs publish distinct videos, none in the registry the first run loaded |
| Runner.Run | youtube_runner.py:183-220 | the method's outcome and final store are those of the transition |

## Left out

- Google Drive is not modelled: the service set-up, the pagination of a folder listing, and the download. The listings and the download's success are inputs.
- A missing service-account variable makes the run exit after the schedule step. The model does not have this exit.
- The `youtube-upload` subprocess is not modelled; only its success is. A failure other than a non-zero exit (for instance, the command is missing) escapes `main` as an exception. It commits nothing, which is what the model does for a failed upload.
- JSON parsing and writing, the file-existence test, `mkdir` and the write-then-rename are not modelled. A document is absent, readable, or unreadable.
- Documents that parse but have the wrong shape are not modelled. Examples: a used file without `used_ids`, or a slot without `minute`. Such a document makes the code raise.
- DailySchedule.ShouldPostNow: computes the time of a stored slot arithmetically even when its hour or minute is out of range. The code raises in `datetime` for such a slot.
- Randomness is not modelled beyond the choices it makes. This covers the seeding, the draw of the description, and the probability distributions. The shuffle followed by taking the first element is a draw that picks one candidate.
- The clock is not modelled. `ensure_today_schedule` and `should_post_now` each read it separately, so a run straddling midnight can see two different days. The model uses one day and one time per run.
- Environment variables are not modelled beyond `FORCE_POST`. Neither are the tag and description constants or the printed messages.
- Overlapping runs are not modelled. The code takes no lock.
- Videos.Lower: lower-cases ASCII letters only, where Python lower-cases all of Unicode. The extension test gives the same answer either way. The extensions are made of the characters `.`, `4`, `b`, `e`, `m`, `o`, `p`, `v` and `w`, and no non-ASCII character lower-cases to any of them. Python's lower() can also change a string's length (U+0130 becomes two characters); Lower keeps the length and does not model that.
- Titles.BaseName: follows POSIX `pathlib` rules. Windows path rules are not modelled.
- Titles.Stem: follows the rule that a suffix needs a '.' that is neither the first nor the last character of the name. A name ending in '.' keeps it in its stem.
