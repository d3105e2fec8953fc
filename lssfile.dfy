/** The `LSSFile` object (LSSFile.py:94-327): the record store it fills from
    a parsed document, the plan it builds and the writes it makes, each
    method proved against the functions of `Records`, `Planner` and `Writer`. */
module Lss {
  import opened Wrappers
  import opened Timecode
  import opened Records
  import opened Planner
  import opened Writer

  /** `_find_attempt` (LSSFile.py:239-242), and the search for a segment's
      record in `make_plan` (LSSFile.py:153-154, 162). */
  method FindIndex(records: seq<IDTime>, id: string) returns (r: Option<nat>)
    ensures r == FindId(records, id)
  {
    var i := 0;
    while i < |records|
      invariant 0 <= i <= |records|
      invariant forall j :: 0 <= j < i ==> records[j].id != id
    {
      if records[i].id == id {
        return Some(i);
      }
      i := i + 1;
    }
    return None;
  }

  /** The search of lines 311-317: the first split whose stripped name is
      "Personal Best". */
  method FindPersonalBestIndex(splits: seq<SplitTime>) returns (r: Option<nat>)
    ensures r == FindPersonalBest(splits)
  {
    var j := 0;
    while j < |splits|
      invariant 0 <= j <= |splits|
      invariant forall k :: 0 <= k < j ==> Strip(splits[k].name) != PersonalBest
    {
      if Strip(splits[j].name) == PersonalBest {
        PersonalBestAt(splits, j);
        return Some(j);
      }
      j := j + 1;
    }
    return None;
  }

  /** The body of the loop of lines 305-326 for one segment: the first
      "Personal Best" split is emptied child by child, or a new one is made,
      and the positive times are appended to it. */
  method RewriteSplits(splits: seq<SplitTime>, q: IDTime) returns (r: seq<SplitTime>)
    requires q.HasReadableTimes()
    ensures r == WriteSegment(splits, q)
  {
    var found := FindPersonalBestIndex(splits);
    var node;
    if found.Some? {
      node := splits[found.value];
      while node.children != []
        invariant node.name == splits[found.value].name
        decreases |node.children|
      {
        node := SplitTime(node.name, node.children[1..]);
      }
    } else {
      node := SplitTime(PersonalBest, []);
    }
    if q.RtaSecs() > 0 {
      node := SplitTime(node.name, node.children + [Leaf("RealTime", q.rta)]);
    }
    if q.IgtSecs() > 0 {
      node := SplitTime(node.name, node.children + [Leaf("GameTime", q.igt)]);
    }
    assert node.children == NewChildren(q);
    if found.Some? {
      r := splits[found.value := node];
    } else {
      r := splits + [node];
    }
  }

  /** The first pass of `make_plan` (LSSFile.py:147-173): the rows of
      `il_stack`, the running sums, `invalid_count` and the code. When the
      sums reach the totals the pass is complete; otherwise the last segment
      had a record and the sums are those of the valid records. */
  method ScanSegments(times: seq<seq<IDTime>>, id: string, final: Leg)
    returns (stack: seq<Leg>, sum: Leg, invalidCount: nat, code: int)
    requires RecordsReadable(times, id)
    ensures sum == final ==> PlanPass(Found(times, id), final) == Some(Pass(stack, code))
    ensures (sum != final ==>
      stack == StackOf(Found(times, id)) && sum == ValidTotal(Found(times, id))
      && invalidCount == PlaceholderCount(Found(times, id)) && code == 1
      && (|times| == 0 || Found(times, id)[|times| - 1].Some?))
  {
    var n := |times|;
    ghost var found := Found(times, id);
    stack, sum, invalidCount, code := [], Leg(0, 0), 0, 1;
    var i := 0;
    while i < n
      invariant 0 <= i <= n
      invariant (!(i == n && n > 0 && found[n - 1].None?) ==>
        stack == StackOf(found[..i]) && sum == ValidTotal(found[..i])
        && invalidCount == PlaceholderCount(found[..i]) && code == 1)
      invariant (i == n && n > 0 && found[n - 1].None? ==>
        stack == StackOf(found[..n - 1]) + [Sub(final, ValidTotal(found[..n - 1]))] && sum == final
        && code == (if PlaceholderCount(found[..n - 1]) > 0 then 0 else 1))
    {
      PrefixStep(found, i);
      var record := SegmentLeg(times[i], id);
      stack, sum, invalidCount, code := ScanStep(record, i == n - 1, final, stack, sum, invalidCount, code);
      i := i + 1;
    }
    assert found[..n] == found;
    ScanComplete(found, final, stack, sum, invalidCount, code);
  }

  /** Lines 155-161 and 163-173 for one segment: a present record is stacked
      and, when valid, added to the sums; a missing last record is filled
      in with what the totals leave; any other missing record stacks (0, 0). */
  method ScanStep(record: Option<Leg>, last: bool, final: Leg, stack: seq<Leg>, sum: Leg, invalidCount: nat, code: int)
    returns (stack': seq<Leg>, sum': Leg, invalidCount': nat, code': int)
    ensures !(last && record.None?) ==>
      stack' == stack + [Stacked(record)]
      && sum' == (if Placeholder(record) then sum else Add(sum, record.value))
      && invalidCount' == invalidCount + (if Placeholder(record) then 1 else 0) && code' == code
    ensures last && record.None? ==>
      stack' == stack + [Sub(final, sum)] && sum' == final
      && code' == (if invalidCount > 0 then 0 else code)
  {
    stack', sum', invalidCount', code' := stack, sum, invalidCount, code;
    if record.Some? {
      var leg := record.value;
      if leg.IsValid() {
        sum' := Add(sum, leg);
      } else {
        invalidCount' := invalidCount + 1;
      }
      stack' := stack + [leg];
    } else if last {
      stack' := stack + [Sub(final, sum)];
      sum' := final;
      if invalidCount > 0 {
        code' := 0;
      }
    } else {
      invalidCount' := invalidCount + 1;
      stack' := stack + [Leg(0, 0)];
    }
  }

  /** The inner loop of lines 153-162 for one segment: the attempt's first
      record there, read as (rta_secs, igt_secs). */
  method SegmentLeg(records: seq<IDTime>, id: string) returns (r: Option<Leg>)
    requires RecordReadable(records, id)
    ensures r == RecordLeg(records, id)
  {
    var k := FindIndex(records, id);
    if k.Some? {
      var record := records[k.value];
      return Some(Leg(record.RtaSecs(), record.IgtSecs()));
    }
    return None;
  }

  /** The correction loop of lines 184-187. */
  method RepairFirstInvalid(legs: seq<Leg>, diff: Leg) returns (r: seq<Leg>)
    ensures r == ReplaceFirstInvalid(legs, diff)
  {
    r := legs;
    var i := 0;
    while i < |r|
      invariant 0 <= i <= |r| == |legs|
      invariant r == legs
      invariant forall j :: 0 <= j < i ==> legs[j].IsValid()
    {
      if !r[i].IsValid() {
        r := r[i := diff];
        return;
      }
      i := i + 1;
    }
  }

  class LSSFile {
    /** `_xml_open`: the document is loaded and not yet released. */
    var xmlOpen: bool
    /** `_compatible`: the loader's code. */
    var compatible: int
    /** `_attempts`: the finished attempts, in document order. */
    var attempts: seq<IDTime>
    /** `_segments`: each segment's name and <SplitTimes> container. */
    var segments: seq<Segment>
    /** `_times`: each segment's records of retained attempts. */
    var times: seq<seq<IDTime>>
    /** `_writeQueue`: the plan, one entry per segment. */
    var writeQueue: seq<IDTime>

    /** One row of records per segment, attempts `rta_secs`/`igt_secs` can
        read, and a write queue no longer than the segments whose texts can
        be read. */
    ghost predicate Valid()
      reads this
    {
      |times| == |segments|
      && (forall a :: 0 <= a < |attempts| ==> attempts[a].HasReadableTimes())
      && |writeQueue| <= |segments|
      && QueueReadable(writeQueue)
    }

    /** `LSSFile(path)` once `_open` has parsed the document
        (LSSFile.py:95-116): the loader fills the store, and a document it
        does not accept is closed again. */
    constructor (doc: Document)
      requires |doc.histories| == 1 ==> AttemptsReadable(doc.histories[0])
      ensures Valid()
      ensures compatible == LoadCode(doc)
      ensures xmlOpen <==> compatible == 1
      ensures attempts == LoadedAttempts(doc)
      ensures segments == SegmentRows(LoadedSegments(doc))
      ensures times == TimeRows(LoadedSegments(doc), attempts)
      ensures writeQueue == []
    {
      xmlOpen := true;
      attempts, segments, times, writeQueue := [], [], [], [];
      compatible := 0;
      new;
      compatible := ValidateAndPopulate(doc);
      if compatible < 1 {
        Close();
      }
    }

    /** `close` (LSSFile.py:119-123): releases the document; closing again
        does nothing. */
    method Close()
      modifies this`xmlOpen
      ensures !xmlOpen
    {
      if xmlOpen {
        xmlOpen := false;
      }
    }

    /** `_validate_and_populate` (LSSFile.py:244-294) on a fresh store: the
        code of the first failing check, with the attempts, segment rows and
        record rows appended up to that point. */
    method ValidateAndPopulate(doc: Document) returns (code: int)
      requires attempts == [] && segments == [] && times == []
      requires |doc.histories| == 1 ==> AttemptsReadable(doc.histories[0])
      modifies this`attempts, this`segments, this`times
      ensures code == LoadCode(doc)
      ensures attempts == LoadedAttempts(doc)
      ensures segments == SegmentRows(LoadedSegments(doc))
      ensures times == TimeRows(LoadedSegments(doc), attempts)
    {
      if |doc.histories| != 1 {
        return -1;
      }
      attempts := RetainAttempts(doc.histories[0]);
      if attempts == [] {
        return 0;
      }
      if doc.segmentLists == [] {
        return -2;
      }
      var segs := doc.segmentLists[0];
      if segs == [] {
        return -3;
      }
      code := PopulateSegments(segs);
    }

    /** Lines 273-291: a row of `_segments` and of `_times` per segment, up to
        the first segment without exactly one <SplitTimes> (-4). */
    method PopulateSegments(segs: seq<SegmentElem>) returns (code: int)
      requires segments == [] && times == []
      modifies this`segments, this`times
      ensures code == (if FirstBadSegment(segs) < |segs| then -4 else 1)
      ensures segments == SegmentRows(segs[..FirstBadSegment(segs)])
      ensures times == TimeRows(segs[..FirstBadSegment(segs)], attempts)
    {
      var j := 0;
      while j < |segs|
        invariant 0 <= j <= |segs|
        invariant forall k :: 0 <= k < j ==> |segs[k].splitTimes| == 1
        invariant segments == SegmentRows(segs[..j])
        invariant times == TimeRows(segs[..j], attempts)
      {
        if |segs[j].splitTimes| != 1 {
          FirstBadAt(segs, j);
          return -4;
        }
        var kept := KeepKnownTimes(segs[j].times);
        RowsStep(segs, j, attempts);
        segments := segments + [SegmentRow(segs[j])];
        times := times + [kept];
        j := j + 1;
      }
      assert segs[..j] == segs;
      FirstBadAt(segs, j);
      return 1;
    }

    /** Lines 283-290: the <Time> records with a non-empty id that a
        retained attempt has. */
    method KeepKnownTimes(entries: seq<Entry>) returns (kept: seq<IDTime>)
      ensures kept == KeptTimes(entries, attempts)
    {
      kept := [];
      var t := 0;
      while t < |entries|
        invariant 0 <= t <= |entries|
        invariant kept == KeptTimes(entries[..t], attempts)
      {
        assert entries[..t + 1][..t] == entries[..t];
        var time := entries[t];
        if time.id != "" {
          var a := 0;
          while a < |attempts|
            invariant 0 <= a <= |attempts|
            invariant kept == KeptTimes(entries[..t], attempts)
            invariant forall b :: 0 <= b < a ==> attempts[b].id != time.id
          {
            if time.id == attempts[a].id {
              kept := kept + [IDTimeOf(time)];
              break;
            }
            a := a + 1;
          }
        }
        t := t + 1;
      }
      assert entries[..t] == entries;
    }

    /** `make_plan(id)` (LSSFile.py:135-202), with an id no attempt has
        returning -1: the code and new queue are those of `PlanFor`, and on
        -1 and -2 the queue is left as it was. */
    method MakePlan(id: string) returns (code: int)
      requires Valid()
      requires IsRestorable(attempts, id) ==> RecordsReadable(times, id)
      modifies this`writeQueue
      ensures Valid()
      ensures code < 0 ==> PlanFor(attempts, times, segments, id) == Rejected(code) && writeQueue == old(writeQueue)
      ensures code >= 0 ==> PlanFor(attempts, times, segments, id) == Planned(code, writeQueue)
    {
      if id == NoneToken {
        return -1;
      }
      var index := FindIndex(attempts, id);
      if index.None? {
        return -1;
      }
      var final := Leg(attempts[index.value].RtaSecs(), attempts[index.value].IgtSecs());
      assert final == FinalOf(attempts, id);
      ghost var found := Found(times, id);
      var stack, sum, invalidCount;
      stack, sum, invalidCount, code := ScanSegments(times, id, final);
      if sum != final {
        if invalidCount != 1 {
          return -2;
        }
        stack := RepairFirstInvalid(stack, Sub(final, sum));
      }
      assert PlanPass(found, final) == Some(Pass(stack, code));
      PassShape(found, final);
      FillQueue(stack);
    }

    /** Lines 190-200: the queue, rebuilt from the rows with running sums. */
    method FillQueue(stack: seq<Leg>)
      requires |stack| <= |segments|
      modifies this`writeQueue
      ensures writeQueue == Queue(stack, segments)
      ensures |writeQueue| == |stack|
      ensures QueueReadable(writeQueue)
    {
      var sum := Leg(0, 0);
      writeQueue := [];
      var m := 0;
      while m < |stack|
        invariant 0 <= m <= |stack|
        invariant sum == Total(stack[..m])
        invariant writeQueue == Queue(stack[..m], segments)
      {
        assert stack[..m + 1][..m] == stack[..m];
        var leg := stack[m];
        sum := Add(sum, leg);
        writeQueue := writeQueue + [IDTime(segments[m].name, Field(leg.rta, sum.rta), Field(leg.igt, sum.igt))];
        m := m + 1;
      }
      assert stack[..m] == stack;
      QueueTextsRead(stack, segments);
    }

    /** `_write_to_xml` (LSSFile.py:296-327), with a missing "Personal Best"
        split created as intended: nothing happens on a closed document or
        an empty queue; otherwise segment i is written from queue entry i. */
    method WriteToXml() returns (ok: bool)
      requires Valid()
      modifies this`segments
      ensures Valid()
      ensures ok <==> xmlOpen && writeQueue != []
      ensures ok ==> segments == ApplyPlan(old(segments), writeQueue)
      ensures !ok ==> segments == old(segments)
    {
      if !xmlOpen || writeQueue == [] {
        return false;
      }
      ghost var target := ApplyPlan(segments, writeQueue);
      var i := 0;
      while i < |writeQueue|
        invariant 0 <= i <= |writeQueue|
        invariant |segments| == |old(segments)|
        invariant forall k :: 0 <= k < |segments| ==> segments[k] == (if k < i then target[k] else old(segments)[k])
      {
        var splits := RewriteSplits(segments[i].splitTimes, writeQueue[i]);
        segments := segments[i := Segment(segments[i].name, splits)];
        i := i + 1;
      }
      return true;
    }

    /** `save_plan` (LSSFile.py:206-222), with the file system as inputs:
        -1 when the target neither exists nor sits in a writable directory,
        -2 when `_write_to_xml` refuses, -3 when serialising fails, else 1. */
    method SavePlan(targetExists: bool, dirWritable: bool, serialises: bool) returns (code: int)
      requires Valid()
      modifies this`segments
      ensures Valid()
      ensures code == -1 <==> !targetExists && !dirWritable
      ensures code == -2 <==> (targetExists || dirWritable) && !(xmlOpen && writeQueue != [])
      ensures code == -3 <==> (targetExists || dirWritable) && xmlOpen && writeQueue != [] && !serialises
      ensures code == 1 <==> (targetExists || dirWritable) && xmlOpen && writeQueue != [] && serialises
      ensures code == -1 || code == -2 ==> segments == old(segments)
      ensures code == -3 || code == 1 ==> segments == ApplyPlan(old(segments), writeQueue)
    {
      if !targetExists && !dirWritable {
        return -1;
      }
      var ok := WriteToXml();
      if !ok {
        return -2;
      }
      if !serialises {
        return -3;
      }
      return 1;
    }
  }

  /** Lines 253-256: the attempts with children whose times are valid. */
  method RetainAttempts(entries: seq<Entry>) returns (attempts: seq<IDTime>)
    requires AttemptsReadable(entries)
    ensures attempts == Retained(entries)
  {
    attempts := [];
    var i := 0;
    while i < |entries|
      invariant 0 <= i <= |entries|
      invariant AttemptsReadable(entries[..i])
      invariant attempts == Retained(entries[..i])
    {
      assert entries[..i + 1][..i] == entries[..i];
      assert AttemptsReadable(entries[..i + 1]);
      var e := entries[i];
      if HasChildren(e) {
        var idt := IDTimeOf(e);
        if idt.IsValid() {
          attempts := attempts + [idt];
        }
      }
      i := i + 1;
    }
    assert entries[..i] == entries;
  }

  /** The state the first pass of `make_plan` ends in decides the rest of
      it as `PlanPass` does. */
  lemma ScanComplete(found: seq<Option<Leg>>, final: Leg, stack: seq<Leg>, sum: Leg, invalidCount: nat, code: int)
    requires (!(|found| > 0 && found[|found| - 1].None?) ==>
      stack == StackOf(found) && sum == ValidTotal(found)
      && invalidCount == PlaceholderCount(found) && code == 1)
    requires (|found| > 0 && found[|found| - 1].None? ==>
      stack == StackOf(found[..|found| - 1]) + [Sub(final, ValidTotal(found[..|found| - 1]))] && sum == final
      && code == (if PlaceholderCount(found[..|found| - 1]) > 0 then 0 else 1))
    ensures sum == final ==> PlanPass(found, final) == Some(Pass(stack, code))
    ensures (sum != final ==>
      stack == StackOf(found) && sum == ValidTotal(found)
      && invalidCount == PlaceholderCount(found) && code == 1
      && (|found| == 0 || found[|found| - 1].Some?))
  {
  }

  /** One more segment row. */
  lemma RowsStep(segs: seq<SegmentElem>, j: nat, attempts: seq<IDTime>)
    requires j < |segs|
    requires forall k :: 0 <= k <= j ==> |segs[k].splitTimes| == 1
    ensures SegmentRows(segs[..j + 1]) == SegmentRows(segs[..j]) + [SegmentRow(segs[j])]
    ensures TimeRows(segs[..j + 1], attempts) == TimeRows(segs[..j], attempts) + [KeptTimes(segs[j].times, attempts)]
  {
    assert segs[..j + 1] == segs[..j] + [segs[j]];
  }

  lemma PersonalBestAt(splits: seq<SplitTime>, j: nat)
    requires j < |splits| && Strip(splits[j].name) == PersonalBest
    requires forall k :: 0 <= k < j ==> Strip(splits[k].name) != PersonalBest
    ensures FindPersonalBest(splits) == Some(j)
  {
  }

  /** The index `FirstBadSegment` finds, from the checks made so far. */
  lemma {:induction false} FirstBadAt(segs: seq<SegmentElem>, j: nat)
    requires j <= |segs|
    requires forall k :: 0 <= k < j ==> |segs[k].splitTimes| == 1
    requires j < |segs| ==> |segs[j].splitTimes| != 1
    ensures FirstBadSegment(segs) == j
  {
    if j > 0 {
      FirstBadAt(segs[1..], j - 1);
    }
  }
}
