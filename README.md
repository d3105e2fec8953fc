# restoreMySplits: the LiveSplit personal-best repair, in Dafny

This project models the core of `LSSFile.py`, the part of restoreMySplits that
repairs a LiveSplit `.lss` save document whose "Personal Best" splits were
lost. It reads the document's attempt history and segments, picks one past
attempt, rebuilds cumulative split times for every segment from that
attempt's recorded segment times and totals, and writes them back into each
segment's `<SplitTime name="Personal Best">`.

Times are integer counts of ticks of 10⁻⁷ s (the resolution of the
`[d.]hh:mm:ss.fffffff` text LiveSplit writes), so the `round(x, 7)` the planner
applies to its sums is the identity.

The modules follow the four parts of the file:

- `Timecode` (timecode.dfy): `secs_from_string` as `Parse`, which returns a
  value with its warning (`Clean`, `NoFraction`, `Invalid`) or `Unreadable`
  where Python's `int()`/`float()` would raise; `time_from_secs` as `Format`.
  The round trip `Parse(Format(t)) == Value(t, Clean)` is proved for every
  integer `t`, 0 ("None") and negative times included.
- `Records` (records.dfy): the document as a datatype (`Document`,
  `SegmentElem`, `Entry`, `SplitTime`), `IDTime` with `is_valid`,
  `data_by_tag`, `_find_attempt`, `is_restorable`, and the loader's filters
  and return code as functions.
- `Planner` (planner.dfy): `make_plan` as functions: the pass over the
  segments (`PlanPass`), the single-missing-split repair, and the cumulative
  write queue (`Queue`), with the reconciliation lemmas.
- `Writer` (writer.dfy): `_write_to_xml` on one segment's `<SplitTimes>`
  (`WriteSegment`) and on all of them (`ApplyPlan`), with idempotence.
- `Lss` (lssfile.dfy): the `LSSFile` object as a class whose fields
  (`attempts`, `segments`, `times`, `writeQueue`, `xmlOpen`) its methods
  update in place, each method's loops proved against the functions above.

Three behaviours of the code a reader may not expect, which the model keeps:

- `is_valid` is `rta + igt != 0` (LSSFile.py:91): a record whose two times
  cancel out, +5 s and −5 s, counts as invalid, and one with a single
  non-zero time counts as valid.
- With two segments, the attempt missing from both, `make_plan` does not
  reject the run: the last one is filled with the whole totals and the code
  is 0, the warning (`Planner.BothMissingScenario`). The run is rejected
  (-2) only when the last segment has a record.
- The rebuilt texts always carry seven fraction digits, even for whole
  seconds: 50 s is `00:00:50.0000000` (`Timecode.FiftySecondsText`).

## Model

| member | source | states |
|---|---|---|
| `Timecode.Parse` | LSSFile.py:7-36 | `secs_from_string`: its behaviour is stated by `FormatParse`, `ClockParse`, `DayClockParse`, `NoColonInvalid`, `HoursOnlyInvalid` and `NoFractionDropsSeconds` |
| `Timecode.Format` | LSSFile.py:39-51 | `time_from_secs` prints "None" exactly for 0; `FormatLayout`, `FormatParse` and the two printed times state the rest |
| `Timecode.FormatParse` | LSSFile.py:7-51 | every time `time_from_secs` prints, "None" for 0 and negative sums included, is read back by `secs_from_string` as the same number of ticks with no warning |
| `Timecode.FormatLayout` | LSSFile.py:39-51 | a non-zero time prints as `hh:mm:ss.fffffff` (two-digit fields, a '.', seven fraction digits), preceded by the floor day count and '.' exactly when that day count is not 0 |
| `Timecode.ClockParse` | LSSFile.py:21-34 | a text `H:M:S.F` without a day count, H, M and S any non-empty digit strings and F one to seven digits, reads as H·3600 + M·60 + S seconds plus the fraction, with no warning |
| `Timecode.DayClockParse` | LSSFile.py:18-34 | a day count (an optional sign and digits), '.' and such a text `H:M:S.F` holds two '.' and reads the field before the first '.' as days: days·86400 + H·3600 + M·60 + S seconds plus the fraction, with no warning |
| `Timecode.NoColonInvalid` | LSSFile.py:21-36 | a text other than "None" with at most one '.' and no ':' reads as 0 with the "invalid" warning |
| `Timecode.HoursOnlyInvalid` | LSSFile.py:23-36 | `h:m` without a second ':' reads as 0 with the "invalid" warning, dropping the hours already read |
| `Timecode.NoFractionDropsSeconds` | LSSFile.py:26-34 | `h:m:s` with no fraction reads as h·3600 + m·60 only, the seconds not added, with the H:M:S warning |
| `Timecode.FiftySecondsText` | LSSFile.py:39-51 | 50 s prints as `00:00:50.0000000`, seven fraction digits for a whole second |
| `Timecode.TwoMinutesText` | LSSFile.py:39-51 | 120 s prints as `00:02:00.0000000` |
| `Timecode.Split` | LSSFile.py:41-48 | the day, hour, minute and second fields of a time are each below their unit and add back up to the time |
| `Timecode.Strip` | LSSFile.py:19 | `str.strip()`: the result is no longer and neither starts nor ends with a character Python's `str.isspace()` holds for (`IsSpace`) |
| `Timecode.StripSlice` | LSSFile.py:19 | `str.strip()` keeps one contiguous slice of the text, and everything before and after that slice is whitespace |
| `Timecode.Find` | LSSFile.py:15 | `str.find`: the first position at or after the start holding the character, or -1 when none does |
| `Records.IDTime.RtaSecs` | LSSFile.py:87 | `rta_secs` is `secs_from_string` of the RealTime text; what it reads is stated by the `Timecode` rows |
| `Records.IDTime.IgtSecs` | LSSFile.py:89 | `igt_secs` likewise on the GameTime text |
| `Records.IDTime.IsValid` | LSSFile.py:91 | `is_valid`: the two read times do not add up to 0; `Retained` and `Planner.Stacked` state what depends on it |
| `Records.IDTimeOf` | LSSFile.py:75-78 | `IDTime(element)`: the id attribute with the texts `data_by_tag` finds; `RetainedSound` and `KeptTimesSound` state that every stored record is one |
| `Records.DataByTag` | LSSFile.py:54-58 | the text of the first child with the tag, and "None" when no child has it |
| `Records.FindId` | LSSFile.py:239-242 | the index of the first record with the id, and None exactly when no record has it |
| `Records.IsRestorable` | LSSFile.py:131-133 | true exactly when the id is not "None" and some retained attempt has it |
| `Records.Retained` | LSSFile.py:253-256 | every retained attempt has readable times that are valid (do not add up to 0) |
| `Records.RetainedSound` | LSSFile.py:253-256 | every retained attempt is the record of an `<Attempt>` with children and valid times |
| `Records.RetainedComplete` | LSSFile.py:253-256 | every `<Attempt>` with children and valid times is retained |
| `Records.RetainedAppend` | LSSFile.py:253-256 | the attempts are retained in document order: the history's later entries are retained after its earlier ones, nothing reordered or merged |
| `Records.RetainedOne` | LSSFile.py:253-256 | a single entry is retained once exactly when it has children and valid times, and not at all otherwise |
| `Records.KeptTimes` | LSSFile.py:283-290 | every record kept for a segment has a non-empty id that a retained attempt has |
| `Records.KeptTimesSound` | LSSFile.py:283-290 | every record kept for a segment is the record of one of its `<Time>` entries with such an id |
| `Records.KeptTimesComplete` | LSSFile.py:283-290 | every `<Time>` entry of the segment with such an id is kept |
| `Records.KeptTimesAppend` | LSSFile.py:283-290 | the records are kept in document order: a segment's later `<Time>` entries are kept after its earlier ones |
| `Records.KeptTimesOne` | LSSFile.py:283-290 | a single `<Time>` entry is kept once exactly when its id is non-empty and a retained attempt has it |
| `Records.FirstBadSegment` | LSSFile.py:273-277 | the first segment without exactly one `<SplitTimes>`: all before it have exactly one |
| `Records.LoadCode` | LSSFile.py:244-294 | the loader's code is -1, 0, -2, -3, -4 or 1 exactly when, in that order, the attempt history count is not 1, no attempt is retained, there is no `<Segments>`, no `<Segment>`, a segment without exactly one `<SplitTimes>`, or none of these |
| `Records.LoadedSegments` | LSSFile.py:273-291 | the segments given rows: all of them on success, exactly the segments before the bad one on -4, none on an earlier failure |
| `Planner.Stacked` | LSSFile.py:155-173 | the row pushed for a segment is invalid exactly when the segment is missing or its record is invalid |
| `Planner.FirstInvalid` | LSSFile.py:184-187 | the index of the first invalid row, None exactly when every row is valid |
| `Planner.ReplaceFirstInvalid` | LSSFile.py:184-187 | the correction keeps the length and every valid row, and changes at most one row |
| `Planner.PlanPass` | LSSFile.py:147-187 | the pass and the correction of `make_plan`; `PassShape`, `PassRejects`, `PassKeepsRecords`, `PassFillsLast`, `PassRepairs`, `PassReconciles` and `PassComplete` state its behaviour |
| `Planner.PassShape` | LSSFile.py:147-173 | a successful pass has one row per segment and code 1, or 0 exactly when a missing last segment was filled after an earlier placeholder |
| `Planner.PassRejects` | LSSFile.py:175-180 | the run is corrupt (-2) exactly when the last segment has a record, the valid records miss the totals and the placeholder count is not 1 (0 included) |
| `Planner.PassKeepsRecords` | LSSFile.py:152-161 | a valid record of the attempt is kept verbatim in its row |
| `Planner.PassFillsLast` | LSSFile.py:164-167 | a missing last segment always yields a pass, its row being the totals minus the valid records before it |
| `Planner.PassRepairs` | LSSFile.py:182-187 | on a mismatch with one placeholder, that placeholder alone takes totals minus sum, and the rows then add up to the totals |
| `Planner.PassReconciles` | LSSFile.py:152-187 | when placeholders hold (0, 0), the rows of every successful pass add up to the attempt's totals |
| `Planner.PassComplete` | LSSFile.py:152-177 | with no segment missing or invalid, the pass succeeds exactly when the records add up to the totals, then keeps every record with code 1 |
| `Planner.Queue` | LSSFile.py:189-200 | the write queue; `QueueAt` and `QueueReadsBack` state its entries |
| `Planner.QueueAt` | LSSFile.py:189-200 | queue entry i is named after segment i and holds the sum of rows 0..i |
| `Planner.QueueReadsBack` | LSSFile.py:193-200 | each queued text reads back as the cumulative time, or 0 ("None") where the segment's own time is 0 |
| `Planner.FieldReads` | LSSFile.py:199-200 | a queue field reads back as the cumulative time when the segment's own time is not 0, else as 0 |
| `Planner.PlanFor` | LSSFile.py:135-202 | `make_plan` with line 141 corrected; `PlanRejectsUnknownId`, `PlanQueue` and `PlanLastSplit` state its result |
| `Planner.PlanForAsWritten` | LSSFile.py:135-202 | `make_plan` as written; `PlanAsWrittenAgrees` and `UnknownIdCrashes` state where it crashes |
| `Planner.PlanRejectsUnknownId` | LSSFile.py:135-145 | the plan is -1 exactly for "None" or an id no retained attempt has |
| `Planner.PlanQueue` | LSSFile.py:189-202 | a plan has one entry per segment, in order, named after it, holding the cumulative rows |
| `Planner.PlanLastSplit` | LSSFile.py:164-202 | when placeholders hold (0, 0), the last entry shows the attempt's totals wherever it shows a time |
| `Planner.PlanAsWrittenAgrees` | LSSFile.py:137-145 | as written, `make_plan` crashes exactly on an id that is not "None" and not restorable, and agrees with the corrected plan on every restorable id |
| `Planner.UnknownIdCrashes` | LSSFile.py:140-142 | an unknown id crashes as written and gives -1 as intended |
| `Planner.LastMissingScenario` | LSSFile.py:152-173 | totals 120 s / 100 s, A at 50 s / 40 s, last segment missing: B is filled with 70 s / 60 s, code 1 |
| `Planner.LastMissingQueue` | LSSFile.py:189-200 | that plan's queue shows 50 s / 40 s for A, then 120 s / 100 s for B |
| `Planner.BothMissingScenario` | LSSFile.py:164-173 | both segments missing: the first stays (0, 0), the last takes the whole totals, code 0, no rejection |
| `Writer.FindPersonalBest` | LSSFile.py:311-317 | the first split whose stripped name is "Personal Best", None exactly when there is none |
| `Writer.NoBreakSpaceNameFound` | LSSFile.py:311-313 | a split named "Personal Best" followed by a no-break space U+00A0 is found, as `str.strip()` removes it |
| `Writer.NewChildren` | LSSFile.py:322-326 | a `<RealTime>` child exactly when the queued RealTime reads as more than 0, then a `<GameTime>` child likewise, and nothing else; read back, each is the queued text when positive and "None" otherwise |
| `Writer.ApplyPlan` | LSSFile.py:305-326 | writing keeps the number and names of the segments and leaves segments past the queue alone; `ApplyPlanResult` states what each queued segment becomes |
| `Writer.ApplyPlanResult` | LSSFile.py:305-326 | for segment i of the queue, the first "Personal Best" split (the old one, or one appended when there was none) holds exactly the new children of queue entry i, and every other split of the segment is unchanged |
| `Writer.WriteSegment` | LSSFile.py:304-326 | one segment of `_write_to_xml` with line 300 corrected; `WriteSegmentResult` and `WriteSegmentIdempotent` state its result |
| `Writer.WriteSegmentAsWritten` | LSSFile.py:300-326 | one segment as written; `WriteSegmentAsWrittenAgrees` and `EmptySplitTimesCrash` state where it crashes |
| `Writer.WriteSegmentResult` | LSSFile.py:304-326 | after writing, the first "Personal Best" split (the appended one when there was none) holds exactly the new children and every other split is unchanged |
| `Writer.WriteSegmentIdempotent` | LSSFile.py:304-326 | writing a segment twice gives what writing it once gives |
| `Writer.ApplyPlanIdempotent` | LSSFile.py:296-327 | `_write_to_xml` run twice leaves the segments as one run does |
| `Writer.WriteSegmentAsWrittenAgrees` | LSSFile.py:300-320 | as written, writing a segment succeeds exactly when it already has a "Personal Best" split, and then agrees with the corrected writer |
| `Writer.EmptySplitTimesCrash` | LSSFile.py:300-309 | an empty `<SplitTimes>` crashes as written, where a new "Personal Best" split was intended |
| `Lss.FindIndex` | LSSFile.py:239-242 | the search loop finds the first record with the id, as `FindId` |
| `Lss.FindPersonalBestIndex` | LSSFile.py:311-317 | the search loop finds the first "Personal Best" split, as `FindPersonalBest` |
| `Lss.RewriteSplits` | LSSFile.py:306-326 | emptying the split child by child and appending the times gives `WriteSegment` |
| `Lss.ScanSegments` | LSSFile.py:147-173 | the first pass ends in the rows, sums, count and code that `PlanPass` describes |
| `Lss.ScanStep` | LSSFile.py:153-173 | one segment: a record is stacked and added when valid, a missing last one is filled with totals minus sum, any other missing one stacks (0, 0) |
| `Lss.SegmentLeg` | LSSFile.py:153-161 | the segment's first record for the attempt, read as ticks |
| `Lss.RepairFirstInvalid` | LSSFile.py:184-187 | the correction loop replaces the first invalid row, as `ReplaceFirstInvalid` |
| `Lss.RetainAttempts` | LSSFile.py:253-256 | the attempt loop keeps exactly `Retained` |
| `Lss.LSSFile.constructor` | LSSFile.py:95-116 | the store holds the loader's code and rows, the write queue is empty, and the document stays open exactly on code 1 |
| `Lss.LSSFile.Close` | LSSFile.py:119-123 | the document is closed afterwards; a second close changes nothing |
| `Lss.LSSFile.ValidateAndPopulate` | LSSFile.py:244-294 | the code is `LoadCode`, and the attempts, segment rows and record rows are those appended up to the failing check |
| `Lss.LSSFile.PopulateSegments` | LSSFile.py:273-291 | one segment row and one record row per segment, up to the first bad segment (-4) |
| `Lss.LSSFile.KeepKnownTimes` | LSSFile.py:283-291 | the nested loops keep exactly `KeptTimes` |
| `Lss.LSSFile.MakePlan` | LSSFile.py:135-202 | the code and new queue are those of `PlanFor`; on -1 and -2 the write queue is unchanged |
| `Lss.LSSFile.FillQueue` | LSSFile.py:189-200 | the queue is reset and refilled as `Queue`, and every text in it can be read back |
| `Lss.LSSFile.WriteToXml` | LSSFile.py:296-327 | false and nothing changed on a closed document or an empty queue; otherwise true and the segments become `ApplyPlan` of the queue |
| `Lss.LSSFile.SavePlan` | LSSFile.py:206-222 | -1, -2, -3 or 1 exactly for an unwritable target, a refused write, a failed save and success; segments change only once the write ran |

## Findings

| source | as written | input that shows it | evidently intended | confidence | as-written member | corrected member |
|---|---|---|---|---|---|---|
| LSSFile.py:141 | tests `attempt_id is not None`, true for every string, so the `None` index from `_find_attempt` reaches line 142 | `make_plan("3")` when no retained attempt has id "3": `self._attempts[None]` raises TypeError | test `attempt_index is not None`, returning -1 for an unknown id | high; not executed | `Planner.PlanForAsWritten` | `Planner.PlanFor` |
| LSSFile.py:300 | `new_pb` is the result of `setAttribute`, which is `None` | a segment whose `<SplitTimes>` holds no `<SplitTime>`, or none named "Personal Best": `new_pb.cloneNode` raises AttributeError at line 309 or 320 | append a new `<SplitTime name="Personal Best">` and write into it | high; not executed | `Writer.WriteSegmentAsWritten` | `Writer.WriteSegment` |

`Planner.UnknownIdCrashes` and `Writer.EmptySplitTimesCrash` exhibit the two
inputs; `Planner.PlanAsWrittenAgrees` and `Writer.WriteSegmentAsWrittenAgrees`
show that the corrected members differ from the code only on them. The class
`Lss.LSSFile` uses the corrected behaviour.

## Left out

- restoreMySplits.py: file dialogs, the prompt loop and `quit()` are user interface with no logic of their own.
- `_open`, `dom.unlink`, `to_base`, `path`, `is_loaded` and the `version` attribute: file-system work and foreign minidom calls. The constructor takes the already parsed `Document`; `xmlOpen` models the open flag.
- Lss.LSSFile.SavePlan: the path checks of line 208 and `writexml` are foreign calls, so their outcomes are the inputs `targetExists`, `dirWritable` and `serialises`.
- `show_attempts`, `show_plan`, `list_from_array` and `IDTime.__str__` only format console tables; `print` and `warn` are not modelled, and the warnings of `secs_from_string` are the `Note` it returns.
- Floating point: times are integer ticks, so `round(x, 7)` is the identity and the `lstrip('0')` carry quirk of line 49 (a fraction rounding up to `1.0000000`) cannot arise.
- `secs_from_string` on a number (line 8): the rows of `il_stack` hold numbers, modelled as the integer pairs of `Planner.Leg`.
- Timecode.IntField: Python's `int()` also accepts surrounding whitespace, underscores between digits and non-ASCII digits; such fields are `Unreadable` in the model rather than read.
- Timecode.FractionField: Python's `float()` also accepts surrounding whitespace (".0000000 " reads as 0 there), underscores between digits, more than seven digits, exponents and "inf"; such fractions are `Unreadable` in the model rather than read.
- Python's ValueError on an unreadable time is a precondition, not a result: the loader requires readable times on the attempts it checks (`AttemptsReadable`), `make_plan` on the first record of the chosen attempt in each segment (`RecordsReadable`).
- minidom's recursive `getElementsByTagName` and `cloneNode`: the `Document` datatype holds, for each element, the list of descendants each search finds.
- `data_by_tag` on an element with no text child (line 57) raises in the source; a `Leaf` always has a text.
- The three-argument and wrong-argument-count forms of `IDTime.__init__` (lines 79-83): queue entries are built directly as `IDTime` values.
- Lss.LSSFile.WriteToXml: the `<SplitTimes>` containers are `seq` values held in the class field `segments`, not shared DOM nodes, so aliasing between the store and the document is not modelled.
