/** `make_plan` (LSSFile.py:135-202) as a function of the record store: the
    per-segment times of the chosen attempt, the rows of `il_stack` after the
    pass and the correction, and the write queue built from them. */
module Planner {
  import opened Wrappers
  import opened Timecode
  import opened Records

  /** A row of `il_stack`: a segment's own real time and game time, in ticks. */
  datatype Leg = Leg(rta: int, igt: int)
  {
    /** `IDTime.is_valid` on a row of `il_stack`. */
    predicate IsValid() { rta + igt != 0 }
  }

  function Add(a: Leg, b: Leg): Leg { Leg(a.rta + b.rta, a.igt + b.igt) }

  function Sub(a: Leg, b: Leg): Leg { Leg(a.rta - b.rta, a.igt - b.igt) }

  /** The rows after the pass and the correction, with the code so far
      (1, or 0 for the warning of line 170). */
  datatype Pass = Pass(legs: seq<Leg>, code: int)

  /** What `make_plan` returns: -1 or -2 with the queue left alone, or 1 / 0
      with the new write queue. */
  datatype PlanResult = Rejected(code: int) | Planned(code: int, queue: seq<IDTime>)

  // ---------------------------------------------------------------- the records of one attempt

  /** The segment's first record for the id can be read without ValueError. */
  predicate RecordReadable(records: seq<IDTime>, id: string)
  {
    match FindId(records, id)
    case None => true
    case Some(k) => records[k].HasReadableTimes()
  }

  predicate RecordsReadable(times: seq<seq<IDTime>>, id: string)
  {
    forall i :: 0 <= i < |times| ==> RecordReadable(times[i], id)
  }

  /** The segment's time for the attempt (lines 153-161): its first record
      read as (rta_secs, igt_secs), or None when it has no record. */
  function RecordLeg(records: seq<IDTime>, id: string): Option<Leg>
    requires RecordReadable(records, id)
  {
    match FindId(records, id)
    case None => None
    case Some(k) => Some(Leg(records[k].RtaSecs(), records[k].IgtSecs()))
  }

  /** The time of the attempt in every segment, in segment order. */
  function Found(times: seq<seq<IDTime>>, id: string): (r: seq<Option<Leg>>)
    requires RecordsReadable(times, id)
    ensures |r| == |times|
    ensures forall i :: 0 <= i < |times| ==> r[i] == RecordLeg(times[i], id)
  {
    seq(|times|, i requires 0 <= i < |times| => RecordLeg(times[i], id))
  }

  /** A segment the pass counts in `invalid_count`: no record, or an invalid one. */
  predicate Placeholder(o: Option<Leg>) { o.None? || !o.value.IsValid() }

  /** The row the pass pushes for a non-last segment: the record, or (0, 0). */
  function Stacked(o: Option<Leg>): (l: Leg)
    ensures !l.IsValid() <==> Placeholder(o)
  {
    if o.Some? then o.value else Leg(0, 0)
  }

  function StackOf(found: seq<Option<Leg>>): (r: seq<Leg>)
    ensures |r| == |found|
    ensures forall i :: 0 <= i < |found| ==> r[i] == Stacked(found[i])
  {
    seq(|found|, i requires 0 <= i < |found| => Stacked(found[i]))
  }

  /** `sum_rta, sum_igt` of the pass: the total of the valid records. */
  function ValidTotal(found: seq<Option<Leg>>): Leg
  {
    if found == [] then Leg(0, 0)
    else
      var n := |found| - 1;
      if Placeholder(found[n]) then ValidTotal(found[..n])
      else Add(ValidTotal(found[..n]), found[n].value)
  }

  /** `invalid_count` of the pass. */
  function PlaceholderCount(found: seq<Option<Leg>>): nat
  {
    if found == [] then 0
    else
      var n := |found| - 1;
      PlaceholderCount(found[..n]) + (if Placeholder(found[n]) then 1 else 0)
  }

  /** The total of the rows of the placeholders. */
  function PlaceholderTotal(found: seq<Option<Leg>>): Leg
  {
    if found == [] then Leg(0, 0)
    else
      var n := |found| - 1;
      if Placeholder(found[n]) then Add(PlaceholderTotal(found[..n]), Stacked(found[n]))
      else PlaceholderTotal(found[..n])
  }

  /** Every placeholder is a true zero: an invalid record that holds (0, 0),
      not one whose two times cancel out. */
  predicate ZeroPlaceholders(found: seq<Option<Leg>>)
  {
    forall i :: 0 <= i < |found| && Placeholder(found[i]) ==> Stacked(found[i]) == Leg(0, 0)
  }

  /** The sum of a run of rows. */
  function Total(legs: seq<Leg>): Leg
  {
    if legs == [] then Leg(0, 0) else Add(Total(legs[..|legs| - 1]), legs[|legs| - 1])
  }

  // ---------------------------------------------------------------- the pass and the correction

  /** The index of the first row that is not valid (the search of lines 184-187). */
  function FirstInvalid(legs: seq<Leg>): (r: Option<nat>)
    ensures r.None? <==> forall i :: 0 <= i < |legs| ==> legs[i].IsValid()
    ensures r.Some? ==> (r.value < |legs| && !legs[r.value].IsValid()
      && forall j :: 0 <= j < r.value ==> legs[j].IsValid())
  {
    if legs == [] then None
    else if !legs[0].IsValid() then Some(0)
    else match FirstInvalid(legs[1..])
      case None => None
      case Some(k) => Some(k + 1)
  }

  /** Lines 184-187: the first row that is not valid takes `leg`; the
      valid rows are kept, and at most one row changes. */
  function ReplaceFirstInvalid(legs: seq<Leg>, leg: Leg): (r: seq<Leg>)
    ensures |r| == |legs|
    ensures forall i :: 0 <= i < |legs| && legs[i].IsValid() ==> r[i] == legs[i]
    ensures forall i, j :: 0 <= i < j < |legs| && r[i] != legs[i] ==> r[j] == legs[j]
  {
    match FirstInvalid(legs)
    case None => legs
    case Some(k) => legs[k := leg]
  }

  /** Lines 147-187: a missing last segment gets the attempt's total minus
      the sum so far (with the warning code when a placeholder came before);
      otherwise the totals must match, or exactly one placeholder must take
      the difference; None is code -2. */
  function PlanPass(found: seq<Option<Leg>>, final: Leg): Option<Pass>
  {
    var n := |found|;
    if n > 0 && found[n - 1].None? then
      var head := found[..n - 1];
      Some(Pass(StackOf(head) + [Sub(final, ValidTotal(head))],
                if PlaceholderCount(head) > 0 then 0 else 1))
    else if ValidTotal(found) == final then Some(Pass(StackOf(found), 1))
    else if PlaceholderCount(found) != 1 then None
    else Some(Pass(ReplaceFirstInvalid(StackOf(found), Sub(final, ValidTotal(found))), 1))
  }

  // ---------------------------------------------------------------- the write queue

  /** A queue field (lines 199-200): the cumulative time as text, or "None"
      when the segment's own time is 0. */
  function Field(own: int, cumulative: int): string
  {
    if own != 0 then Format(cumulative) else NoneToken
  }

  /** Lines 189-200: one entry per row, named after its segment, holding the
      cumulative times up to and including that row. */
  function Queue(legs: seq<Leg>, segments: seq<Segment>): seq<IDTime>
    requires |legs| <= |segments|
  {
    if legs == [] then []
    else
      var n := |legs| - 1;
      Queue(legs[..n], segments) + [QueueEntry(segments[n].name, legs[n], Total(legs))]
  }

  function QueueEntry(name: string, own: Leg, cumulative: Leg): IDTime
  {
    IDTime(name, Field(own.rta, cumulative.rta), Field(own.igt, cumulative.igt))
  }

  /** The attempt's totals, from its <Attempt> entry (lines 142-143). */
  function FinalOf(attempts: seq<IDTime>, id: string): Leg
    requires forall a :: 0 <= a < |attempts| ==> attempts[a].HasReadableTimes()
    requires IsRestorable(attempts, id)
  {
    var k := FindId(attempts, id).value;
    Leg(attempts[k].RtaSecs(), attempts[k].IgtSecs())
  }

  /** Lines 147-202 once the attempt's totals are known. */
  function PlanFrom(found: seq<Option<Leg>>, final: Leg, segments: seq<Segment>): PlanResult
    requires |found| <= |segments|
  {
    match PlanPass(found, final)
    case None => Rejected(-2)
    case Some(p) => Planned(p.code, Queue(p.legs, segments))
  }

  /** `make_plan(id)`, where an id that is "None" or names no retained
      attempt gives -1 (line 141 corrected; see `PlanForAsWritten`). */
  function PlanFor(attempts: seq<IDTime>, times: seq<seq<IDTime>>, segments: seq<Segment>, id: string): PlanResult
    requires forall a :: 0 <= a < |attempts| ==> attempts[a].HasReadableTimes()
    requires |segments| == |times|
    requires IsRestorable(attempts, id) ==> RecordsReadable(times, id)
  {
    if !IsRestorable(attempts, id) then Rejected(-1)
    else PlanFrom(Found(times, id), FinalOf(attempts, id), segments)
  }

  /** `make_plan(id)` as written: line 141 tests `attempt_id is not None`,
      which holds for every string, so an unknown id reaches line 142 and
      indexes the attempts with None, raising TypeError (None here). */
  function PlanForAsWritten(attempts: seq<IDTime>, times: seq<seq<IDTime>>, segments: seq<Segment>, id: string): Option<PlanResult>
    requires forall a :: 0 <= a < |attempts| ==> attempts[a].HasReadableTimes()
    requires |segments| == |times|
    requires IsRestorable(attempts, id) ==> RecordsReadable(times, id)
  {
    if id == NoneToken then Some(Rejected(-1))
    else match FindId(attempts, id)
      case None => None
      case Some(k) => Some(PlanFrom(Found(times, id), Leg(attempts[k].RtaSecs(), attempts[k].IgtSecs()), segments))
  }

  // ---------------------------------------------------------------- sums

  lemma {:induction false} TotalAppend(legs: seq<Leg>, leg: Leg)
    ensures Total(legs + [leg]) == Add(Total(legs), leg)
  {
    assert (legs + [leg])[..|legs|] == legs;
  }

  /** Overwriting one row moves the total by the difference. */
  lemma {:induction false} TotalUpdate(legs: seq<Leg>, k: nat, leg: Leg)
    requires k < |legs|
    ensures Total(legs[k := leg]) == Add(Sub(Total(legs), legs[k]), leg)
  {
    var n := |legs| - 1;
    if k == n {
      assert legs[k := leg][..n] == legs[..n];
    } else {
      assert legs[k := leg][..n] == legs[..n][k := leg];
      TotalUpdate(legs[..n], k, leg);
    }
  }

  /** The rows of the pass add up to the valid records plus the placeholders. */
  lemma {:induction false} StackTotal(found: seq<Option<Leg>>)
    ensures Total(StackOf(found)) == Add(ValidTotal(found), PlaceholderTotal(found))
  {
    if found != [] {
      var n := |found| - 1;
      assert StackOf(found)[..n] == StackOf(found[..n]);
      StackTotal(found[..n]);
    }
  }

  lemma {:induction false} ZeroPlaceholderTotal(found: seq<Option<Leg>>)
    requires ZeroPlaceholders(found)
    ensures PlaceholderTotal(found) == Leg(0, 0)
  {
    if found != [] {
      var n := |found| - 1;
      assert forall i :: 0 <= i < n ==> found[..n][i] == found[i];
      ZeroPlaceholderTotal(found[..n]);
    }
  }

  /** `invalid_count` is 0 exactly when no segment is a placeholder. */
  lemma {:induction false} CountZero(found: seq<Option<Leg>>)
    ensures PlaceholderCount(found) == 0 <==> forall i :: 0 <= i < |found| ==> !Placeholder(found[i])
  {
    if found != [] {
      var n := |found| - 1;
      assert forall i :: 0 <= i < n ==> found[..n][i] == found[i];
      CountZero(found[..n]);
    }
  }

  lemma {:induction false} PlaceholderCounted(found: seq<Option<Leg>>, k: nat)
    requires k < |found| && Placeholder(found[k])
    ensures PlaceholderCount(found) > 0
  {
    var n := |found| - 1;
    if k < n {
      assert found[..n][k] == found[k];
      PlaceholderCounted(found[..n], k);
    }
  }

  /** With `invalid_count` 1, the placeholder is the only one, and it alone
      makes up the placeholders' total. */
  lemma {:induction false} OnlyPlaceholder(found: seq<Option<Leg>>, k: nat)
    requires PlaceholderCount(found) == 1
    requires k < |found| && Placeholder(found[k])
    ensures forall j :: 0 <= j < |found| && j != k ==> !Placeholder(found[j])
    ensures PlaceholderTotal(found) == Stacked(found[k])
  {
    var n := |found| - 1;
    assert forall i :: 0 <= i < n ==> found[..n][i] == found[i];
    if k == n {
      CountZero(found[..n]);
      ZeroPlaceholderTotal(found[..n]);
    } else {
      PlaceholderCounted(found[..n], k);
      OnlyPlaceholder(found[..n], k);
    }
  }

  // ---------------------------------------------------------------- the pass

  /** One more segment of the pass: its row, its share of the sums and of
      `invalid_count`. */
  lemma PrefixStep(found: seq<Option<Leg>>, i: nat)
    requires i < |found|
    ensures StackOf(found[..i + 1]) == StackOf(found[..i]) + [Stacked(found[i])]
    ensures ValidTotal(found[..i + 1])
      == if Placeholder(found[i]) then ValidTotal(found[..i]) else Add(ValidTotal(found[..i]), found[i].value)
    ensures PlaceholderCount(found[..i + 1])
      == PlaceholderCount(found[..i]) + if Placeholder(found[i]) then 1 else 0
  {
    assert found[..i + 1][..i] == found[..i];
  }

  /** One row per segment, and the code is 1, or 0 exactly when a missing
      last segment was filled in after an earlier placeholder (line 170). */
  lemma PassShape(found: seq<Option<Leg>>, final: Leg)
    requires PlanPass(found, final).Some?
    ensures |PlanPass(found, final).value.legs| == |found|
    ensures PlanPass(found, final).value.code in {0, 1}
    ensures (PlanPass(found, final).value.code == 0
      <==> (|found| > 0 && found[|found| - 1].None? && PlaceholderCount(found[..|found| - 1]) > 0))
  {
  }

  /** Line 180: the run is corrupt exactly when the last segment has a
      record, the valid records miss the totals, and the placeholders are
      not exactly one (none included). */
  lemma PassRejects(found: seq<Option<Leg>>, final: Leg)
    ensures (PlanPass(found, final).None?
      <==> ((|found| == 0 || found[|found| - 1].Some?) && ValidTotal(found) != final && PlaceholderCount(found) != 1))
  {
  }

  /** A valid record is kept verbatim (lines 155-161). */
  lemma PassKeepsRecords(found: seq<Option<Leg>>, final: Leg, i: nat)
    requires PlanPass(found, final).Some?
    requires i < |found| && found[i].Some? && found[i].value.IsValid()
    ensures PlanPass(found, final).value.legs[i] == found[i].value
  {
    var n := |found|;
    if !(n > 0 && found[n - 1].None?) && ValidTotal(found) != final {
      match FirstInvalid(StackOf(found))
      case None =>
      case Some(k) => assert k != i;
    }
  }

  /** Line 166: a missing last segment takes the totals minus the valid
      records before it. */
  lemma PassFillsLast(found: seq<Option<Leg>>, final: Leg)
    requires |found| > 0 && found[|found| - 1].None?
    ensures PlanPass(found, final).Some?
    ensures PlanPass(found, final).value.legs[|found| - 1] == Sub(final, ValidTotal(found))
  {
  }

  /** Lines 182-187: with a mismatch and one placeholder, that placeholder and
      nothing else takes the difference, and the rows then add up to the
      totals whatever the placeholder held. */
  lemma PassRepairs(found: seq<Option<Leg>>, final: Leg, k: nat)
    requires k < |found| && Placeholder(found[k])
    requires found[|found| - 1].Some?
    requires ValidTotal(found) != final
    requires PlaceholderCount(found) == 1
    ensures ReplaceFirstInvalid(StackOf(found), Sub(final, ValidTotal(found))) == StackOf(found)[k := Sub(final, ValidTotal(found))]
    ensures PlanPass(found, final) == Some(Pass(StackOf(found)[k := Sub(final, ValidTotal(found))], 1))
    ensures Total(PlanPass(found, final).value.legs) == final
  {
    OnlyPlaceholder(found, k);
    var legs := StackOf(found);
    var first := FirstInvalid(legs);
    assert !legs[k].IsValid();
    assert first.Some? && first.value == k;
    TotalUpdate(legs, k, Sub(final, ValidTotal(found)));
    StackTotal(found);
  }

  /** A segment with `invalid_count` > 0 has a first placeholder. */
  lemma {:induction false} SomePlaceholder(found: seq<Option<Leg>>) returns (k: nat)
    requires PlaceholderCount(found) > 0
    ensures k < |found| && Placeholder(found[k])
  {
    var n := |found| - 1;
    if Placeholder(found[n]) {
      k := n;
    } else {
      k := SomePlaceholder(found[..n]);
      assert found[..n][k] == found[k];
    }
  }

  /** A missing last segment after placeholders that hold (0, 0): the rows
      add up to the totals. */
  lemma FillReconciles(found: seq<Option<Leg>>, final: Leg)
    requires |found| > 0 && found[|found| - 1].None?
    requires ZeroPlaceholders(found)
    ensures Total(PlanPass(found, final).value.legs) == final
  {
    var n := |found| - 1;
    var head := found[..n];
    var legs := StackOf(head) + [Sub(final, ValidTotal(head))];
    assert PlanPass(found, final).value.legs == legs;
    assert forall i :: 0 <= i < n ==> head[i] == found[i];
    assert ZeroPlaceholders(head);
    TotalAppend(StackOf(head), Sub(final, ValidTotal(head)));
    StackTotal(head);
    ZeroPlaceholderTotal(head);
  }

  /** When every placeholder holds (0, 0), the rows of a pass that succeeds
      add up to the attempt's totals. */
  lemma PassReconciles(found: seq<Option<Leg>>, final: Leg)
    requires PlanPass(found, final).Some?
    requires ZeroPlaceholders(found)
    ensures Total(PlanPass(found, final).value.legs) == final
  {
    var n := |found|;
    if n > 0 && found[n - 1].None? {
      FillReconciles(found, final);
    } else if ValidTotal(found) == final {
      assert PlanPass(found, final).value.legs == StackOf(found);
      StackTotal(found);
      ZeroPlaceholderTotal(found);
    } else {
      var j := SomePlaceholder(found);
      assert !StackOf(found)[j].IsValid();
      var k := FirstInvalid(StackOf(found)).value;
      PassRepairs(found, final, k);
    }
  }

  /** With no segment missing or invalid the pass succeeds exactly when the
      records add up to the totals, keeps every record and gives code 1. */
  lemma PassComplete(found: seq<Option<Leg>>, final: Leg)
    requires PlaceholderCount(found) == 0
    ensures PlanPass(found, final).Some? <==> ValidTotal(found) == final
    ensures (PlanPass(found, final).Some? ==>
      PlanPass(found, final).value.code == 1
      && forall i :: 0 <= i < |found| ==> found[i].Some? && PlanPass(found, final).value.legs[i] == found[i].value)
  {
    CountZero(found);
  }

  // ---------------------------------------------------------------- the queue

  lemma {:induction false} QueueLength(legs: seq<Leg>, segments: seq<Segment>)
    requires |legs| <= |segments|
    ensures |Queue(legs, segments)| == |legs|
  {
    if legs != [] {
      QueueLength(legs[..|legs| - 1], segments);
    }
  }

  /** Entry i of the queue is named after segment i and holds the sum of
      rows 0..i. */
  lemma {:induction false} QueueAt(legs: seq<Leg>, segments: seq<Segment>, i: nat)
    requires |legs| <= |segments| && i < |legs|
    ensures |Queue(legs, segments)| == |legs|
    ensures Queue(legs, segments)[i] == QueueEntry(segments[i].name, legs[i], Total(legs[..i + 1]))
  {
    var n := |legs| - 1;
    var q, front := Queue(legs, segments), Queue(legs[..n], segments);
    assert |front| == n && q == front + [QueueEntry(segments[n].name, legs[n], Total(legs))] by {
      QueueLength(legs[..n], segments);
    }
    if i == n {
      assert legs[..i + 1] == legs;
    } else {
      assert front[i] == QueueEntry(segments[i].name, legs[i], Total(legs[..i + 1])) by {
        QueueAt(legs[..n], segments, i);
        assert legs[..n][..i + 1] == legs[..i + 1];
      }
    }
  }

  /** Every text of a queue can be read back. */
  lemma QueueTextsRead(legs: seq<Leg>, segments: seq<Segment>)
    requires |legs| <= |segments|
    ensures |Queue(legs, segments)| == |legs|
    ensures QueueReadable(Queue(legs, segments))
  {
    QueueLength(legs, segments);
    forall i | 0 <= i < |legs|
      ensures Queue(legs, segments)[i].HasReadableTimes()
    {
      QueueReadsBack(legs, segments, i);
    }
  }

  /** A queue field reads back as the cumulative time, or 0 for "None". */
  lemma FieldReads(own: int, cumulative: int)
    ensures Readable(Field(own, cumulative))
    ensures Secs(Field(own, cumulative)) == if own != 0 then cumulative else 0
  {
    if own != 0 {
      FormatParse(cumulative);
    }
  }

  lemma QueueReadsBack(legs: seq<Leg>, segments: seq<Segment>, i: nat)
    requires |legs| <= |segments| && i < |legs|
    ensures |Queue(legs, segments)| == |legs|
    ensures Queue(legs, segments)[i].id == segments[i].name
    ensures Queue(legs, segments)[i].HasReadableTimes()
    ensures Queue(legs, segments)[i].RtaSecs() == if legs[i].rta != 0 then Total(legs[..i + 1]).rta else 0
    ensures Queue(legs, segments)[i].IgtSecs() == if legs[i].igt != 0 then Total(legs[..i + 1]).igt else 0
  {
    QueueAt(legs, segments, i);
    FieldReads(legs[i].rta, Total(legs[..i + 1]).rta);
    FieldReads(legs[i].igt, Total(legs[..i + 1]).igt);
  }

  // ---------------------------------------------------------------- make_plan

  /** -1 exactly for an id that is not restorable (lines 137, 145). */
  lemma PlanRejectsUnknownId(attempts: seq<IDTime>, times: seq<seq<IDTime>>, segments: seq<Segment>, id: string)
    requires forall a :: 0 <= a < |attempts| ==> attempts[a].HasReadableTimes()
    requires |segments| == |times|
    requires IsRestorable(attempts, id) ==> RecordsReadable(times, id)
    ensures PlanFor(attempts, times, segments, id) == Rejected(-1) <==> !IsRestorable(attempts, id)
  {
  }

  /** A plan has one entry per segment, in segment order, named after it,
      whose fields hold the cumulative rows as text, or "None" where the
      segment's own time is 0 (lines 189-200); `FieldReads` reads them back. */
  lemma PlanQueue(attempts: seq<IDTime>, times: seq<seq<IDTime>>, segments: seq<Segment>, id: string, i: nat)
    requires forall a :: 0 <= a < |attempts| ==> attempts[a].HasReadableTimes()
    requires |segments| == |times|
    requires IsRestorable(attempts, id) ==> RecordsReadable(times, id)
    requires PlanFor(attempts, times, segments, id).Planned?
    requires i < |segments|
    ensures IsRestorable(attempts, id)
    ensures |PlanFor(attempts, times, segments, id).queue| == |segments|
    ensures (var q := PlanFor(attempts, times, segments, id).queue;
      var legs := PlanPass(Found(times, id), FinalOf(attempts, id)).value.legs;
      |legs| == |segments|
      && q[i] == QueueEntry(segments[i].name, legs[i], Total(legs[..i + 1])))
  {
    var found := Found(times, id);
    var p := PlanPass(found, FinalOf(attempts, id)).value;
    PassShape(found, FinalOf(attempts, id));
    QueueAt(p.legs, segments, i);
  }

  /** When every placeholder holds (0, 0), the last entry of a plan shows the
      attempt's totals as text wherever it shows a time at all. */
  lemma PlanLastSplit(attempts: seq<IDTime>, times: seq<seq<IDTime>>, segments: seq<Segment>, id: string)
    requires forall a :: 0 <= a < |attempts| ==> attempts[a].HasReadableTimes()
    requires |segments| == |times|
    requires IsRestorable(attempts, id) ==> RecordsReadable(times, id)
    requires PlanFor(attempts, times, segments, id).Planned?
    requires |segments| > 0
    requires IsRestorable(attempts, id) ==> ZeroPlaceholders(Found(times, id))
    ensures IsRestorable(attempts, id)
    ensures (var q := PlanFor(attempts, times, segments, id).queue;
      var n := |segments| - 1;
      |q| == |segments|
      && (q[n].rta == NoneToken || q[n].rta == Format(FinalOf(attempts, id).rta))
      && (q[n].igt == NoneToken || q[n].igt == Format(FinalOf(attempts, id).igt)))
  {
    PlanFromLast(Found(times, id), FinalOf(attempts, id), segments);
  }

  /** `PlanLastSplit` for the records found and the attempt's totals. */
  lemma PlanFromLast(found: seq<Option<Leg>>, final: Leg, segments: seq<Segment>)
    requires 0 < |found| == |segments|
    requires PlanFrom(found, final, segments).Planned?
    requires ZeroPlaceholders(found)
    ensures (var q := PlanFrom(found, final, segments).queue;
      var n := |segments| - 1;
      |q| == |segments|
      && (q[n].rta == NoneToken || q[n].rta == Format(final.rta))
      && (q[n].igt == NoneToken || q[n].igt == Format(final.igt)))
  {
    var p := PlanPass(found, final).value;
    PassShape(found, final);
    PassReconciles(found, final);
    QueueLast(p.legs, segments);
  }

  /** The last entry of a queue holds the total of all the rows. */
  lemma QueueLast(legs: seq<Leg>, segments: seq<Segment>)
    requires 0 < |legs| == |segments|
    ensures (var q := Queue(legs, segments);
      var n := |legs| - 1;
      |q| == |legs|
      && (q[n].rta == NoneToken || q[n].rta == Format(Total(legs).rta))
      && (q[n].igt == NoneToken || q[n].igt == Format(Total(legs).igt)))
  {
    var n := |legs| - 1;
    var q := Queue(legs, segments);
    assert |q| == |legs| && q[n] == QueueEntry(segments[n].name, legs[n], Total(legs)) by {
      QueueAt(legs, segments, n);
      assert legs[..n + 1] == legs;
    }
  }

  /** The finding at line 141: the code as written crashes on an id no
      attempt has, where -1 was meant; on every restorable id it agrees with
      `PlanFor`. */
  lemma PlanAsWrittenAgrees(attempts: seq<IDTime>, times: seq<seq<IDTime>>, segments: seq<Segment>, id: string)
    requires forall a :: 0 <= a < |attempts| ==> attempts[a].HasReadableTimes()
    requires |segments| == |times|
    requires IsRestorable(attempts, id) ==> RecordsReadable(times, id)
    ensures IsRestorable(attempts, id) ==> PlanForAsWritten(attempts, times, segments, id) == Some(PlanFor(attempts, times, segments, id))
    ensures (PlanForAsWritten(attempts, times, segments, id).None?
      <==> (id != NoneToken && !IsRestorable(attempts, id)))
  {
  }

  lemma UnknownIdCrashes()
    ensures PlanForAsWritten([], [], [], "3") == None
    ensures PlanFor([], [], [], "3") == Rejected(-1)
  {
  }

  // ---------------------------------------------------------------- worked cases

  /** Attempt "3" with totals 120 s / 100 s, segment A at 50 s / 40 s and
      the last segment B missing: B is filled with 70 s / 60 s and the code
      is 1. */
  lemma LastMissingScenario()
    ensures (var found := [Some(Leg(500_000_000, 400_000_000)), None];
      var final := Leg(1_200_000_000, 1_000_000_000);
      PlanPass(found, final) == Some(Pass([Leg(500_000_000, 400_000_000), Leg(700_000_000, 600_000_000)], 1)))
  {
    var found := [Some(Leg(500_000_000, 400_000_000)), None];
    var final := Leg(1_200_000_000, 1_000_000_000);
    assert found[..1] == [Some(Leg(500_000_000, 400_000_000))];
    assert found[..1][..0] == [];
    assert StackOf(found[..1]) == [Leg(500_000_000, 400_000_000)];
    assert PlaceholderCount(found[..1]) == 0;
    assert ValidTotal(found[..1]) == Leg(500_000_000, 400_000_000);
    assert PlanPass(found, final) == Some(Pass(StackOf(found[..1]) + [Sub(final, ValidTotal(found[..1]))], 1));
    assert StackOf(found[..1]) + [Sub(final, ValidTotal(found[..1]))]
      == [Leg(500_000_000, 400_000_000), Leg(700_000_000, 600_000_000)];
  }

  /** The queue of that scenario shows 50 s / 40 s, then 120 s / 100 s. */
  lemma LastMissingQueue(segments: seq<Segment>)
    requires |segments| == 2
    ensures (var legs := [Leg(500_000_000, 400_000_000), Leg(700_000_000, 600_000_000)];
      Queue(legs, segments)
        == [IDTime(segments[0].name, Format(500_000_000), Format(400_000_000)),
            IDTime(segments[1].name, Format(1_200_000_000), Format(1_000_000_000))])
  {
    var legs := [Leg(500_000_000, 400_000_000), Leg(700_000_000, 600_000_000)];
    assert legs[..1] == [legs[0]];
    assert legs[..1][..0] == [];
    assert legs[..2] == legs;
    assert Total(legs[..1]) == legs[0];
    assert Total(legs) == Leg(1_200_000_000, 1_000_000_000);
    QueueLength(legs, segments);
    QueueAt(legs, segments, 0);
    QueueAt(legs, segments, 1);
  }

  /** Both segments missing for the attempt: the code does not reject the
      run; it fills the last segment with the whole totals, keeps (0, 0) for
      the first, and returns the warning code 0. */
  lemma BothMissingScenario()
    ensures (var final := Leg(1_200_000_000, 1_000_000_000);
      PlanPass([None, None], final) == Some(Pass([Leg(0, 0), final], 0)))
  {
    var found: seq<Option<Leg>> := [None, None];
    var final := Leg(1_200_000_000, 1_000_000_000);
    assert found[..1] == [None];
    assert found[..1][..0] == [];
    assert PlaceholderCount(found[..1]) == 1;
    assert ValidTotal(found[..1]) == Leg(0, 0);
    assert StackOf(found[..1]) == [Leg(0, 0)];
    assert PlanPass(found, final) == Some(Pass(StackOf(found[..1]) + [Sub(final, ValidTotal(found[..1]))], 0));
    assert StackOf(found[..1]) + [Sub(final, ValidTotal(found[..1]))] == [Leg(0, 0), final];
  }
}
