/** What `_write_to_xml` (LSSFile.py:296-327) does to the <SplitTimes>
    containers of the segments: the first <SplitTime> named "Personal Best"
    of each segment ends up holding exactly the queued times. */
module Writer {
  import opened Wrappers
  import opened Timecode
  import opened Records

  /** The reserved name of the canonical split (LSSFile.py:300, 312). */
  const PersonalBest := "Personal Best"

  /** The index of the first split whose name, stripped of surrounding
      whitespace, is "Personal Best" (LSSFile.py:311-317). */
  function FindPersonalBest(splits: seq<SplitTime>): (r: Option<nat>)
    ensures r.None? <==> forall i :: 0 <= i < |splits| ==> Strip(splits[i].name) != PersonalBest
    ensures r.Some? ==> (r.value < |splits| && Strip(splits[r.value].name) == PersonalBest
      && forall j :: 0 <= j < r.value ==> Strip(splits[j].name) != PersonalBest)
  {
    if splits == [] then None
    else if Strip(splits[0].name) == PersonalBest then Some(0)
    else match FindPersonalBest(splits[1..])
      case None => None
      case Some(k) => Some(k + 1)
  }

  /** The children written into the canonical split (lines 323-326): a
      <RealTime> with the queued text when it reads as more than 0, then a
      <GameTime> likewise. Read back with `data_by_tag`, each time is the
      queued one when positive and "None" otherwise. */
  function NewChildren(q: IDTime): (r: seq<Leaf>)
    requires q.HasReadableTimes()
    ensures |r| == (if q.RtaSecs() > 0 then 1 else 0) + (if q.IgtSecs() > 0 then 1 else 0)
    ensures forall k :: 0 <= k < |r| ==> r[k].tag in {"RealTime", "GameTime"}
    ensures |r| == 2 ==> r[0].tag == "RealTime" && r[1].tag == "GameTime"
    ensures DataByTag(r, "RealTime") == if q.RtaSecs() > 0 then q.rta else NoneToken
    ensures DataByTag(r, "GameTime") == if q.IgtSecs() > 0 then q.igt else NoneToken
  {
    (if q.RtaSecs() > 0 then [Leaf("RealTime", q.rta)] else [])
    + (if q.IgtSecs() > 0 then [Leaf("GameTime", q.igt)] else [])
  }

  /** One segment of `_write_to_xml`: the first "Personal Best" split has
      its children replaced, or a new one is appended when there is none
      (the evidently intended behaviour of lines 300, 307-309 and 318-320;
      see `WriteSegmentAsWritten`). */
  function WriteSegment(splits: seq<SplitTime>, q: IDTime): seq<SplitTime>
    requires q.HasReadableTimes()
  {
    match FindPersonalBest(splits)
    case Some(j) => splits[j := SplitTime(splits[j].name, NewChildren(q))]
    case None => splits + [SplitTime(PersonalBest, NewChildren(q))]
  }

  /** One segment as written: `new_pb` is the `None` that `setAttribute`
      returns (line 300), so a segment without a "Personal Best" split makes
      `new_pb.cloneNode` raise AttributeError (None here). */
  function WriteSegmentAsWritten(splits: seq<SplitTime>, q: IDTime): Option<seq<SplitTime>>
    requires q.HasReadableTimes()
  {
    match FindPersonalBest(splits)
    case Some(j) => Some(splits[j := SplitTime(splits[j].name, NewChildren(q))])
    case None => None
  }

  /** `_write_to_xml` over all segments: segment i takes queue entry i. */
  function ApplyPlan(segments: seq<Segment>, queue: seq<IDTime>): (r: seq<Segment>)
    requires |queue| <= |segments| && QueueReadable(queue)
    ensures |r| == |segments|
    ensures forall i :: 0 <= i < |segments| ==> r[i].name == segments[i].name
    ensures forall i :: |queue| <= i < |segments| ==> r[i] == segments[i]
  {
    seq(|segments|, i requires 0 <= i < |segments| =>
      if i < |queue| then Segment(segments[i].name, WriteSegment(segments[i].splitTimes, queue[i]))
      else segments[i])
  }

  // ---------------------------------------------------------------- properties

  /** After writing, the first "Personal Best" split is the old one, or the
      appended one when there was none; it holds exactly the new children,
      and every other split is untouched. */
  lemma WriteSegmentResult(splits: seq<SplitTime>, q: IDTime)
    requires q.HasReadableTimes()
    ensures (var r := WriteSegment(splits, q);
      var j := if FindPersonalBest(splits).Some? then FindPersonalBest(splits).value else |splits|;
      |r| == (if FindPersonalBest(splits).Some? then |splits| else |splits| + 1)
      && FindPersonalBest(r) == Some(j)
      && r[j].children == NewChildren(q)
      && forall k :: 0 <= k < |splits| && k != j ==> r[k] == splits[k])
  {
    match FindPersonalBest(splits)
    case None => AppendedIsFound(splits, SplitTime(PersonalBest, NewChildren(q)));
    case Some(j) => ReplacedIsFound(splits, j, NewChildren(q));
  }

  /** Replacing the children of the first "Personal Best" split keeps it the
      first one found. */
  lemma ReplacedIsFound(splits: seq<SplitTime>, j: nat, children: seq<Leaf>)
    requires FindPersonalBest(splits) == Some(j)
    ensures FindPersonalBest(splits[j := SplitTime(splits[j].name, children)]) == Some(j)
  {
    var r := splits[j := SplitTime(splits[j].name, children)];
    assert forall k :: 0 <= k < |splits| ==> r[k].name == splits[k].name;
  }

  /** A split appended after splits none of which is "Personal Best" is the
      first one found. */
  lemma AppendedIsFound(splits: seq<SplitTime>, pb: SplitTime)
    requires FindPersonalBest(splits).None?
    requires pb.name == PersonalBest
    ensures FindPersonalBest(splits + [pb]) == Some(|splits|)
  {
    var r := splits + [pb];
    assert Strip(r[|splits|].name) == PersonalBest by {
      StripUnchanged(PersonalBest);
    }
    forall j | 0 <= j < |splits|
      ensures Strip(r[j].name) != PersonalBest
    {
      assert r[j] == splits[j];
    }
  }

  /** Writing a segment twice gives what writing it once gives: the second
      write finds the split the first one wrote and replaces its children
      again, so nothing is appended twice. */
  lemma WriteSegmentIdempotent(splits: seq<SplitTime>, q: IDTime)
    requires q.HasReadableTimes()
    ensures WriteSegment(WriteSegment(splits, q), q) == WriteSegment(splits, q)
  {
    WriteSegmentResult(splits, q);
    var r := WriteSegment(splits, q);
    var j := FindPersonalBest(r).value;
    assert r[j := SplitTime(r[j].name, NewChildren(q))] == r;
  }

  /** `_write_to_xml` on segment i of the queue: its first "Personal Best"
      split is the old one, or one appended when there was none, and it holds
      exactly the new children; every other split of the segment is unchanged. */
  lemma ApplyPlanResult(segments: seq<Segment>, queue: seq<IDTime>, i: nat)
    requires |queue| <= |segments| && QueueReadable(queue) && i < |queue|
    ensures (var before := segments[i].splitTimes; var r := ApplyPlan(segments, queue)[i].splitTimes;
      var j := if FindPersonalBest(before).Some? then FindPersonalBest(before).value else |before|;
      FindPersonalBest(r) == Some(j)
      && r[j].children == NewChildren(queue[i])
      && |r| == (if FindPersonalBest(before).Some? then |before| else |before| + 1)
      && forall k :: 0 <= k < |before| && k != j ==> r[k] == before[k])
  {
    WriteSegmentResult(segments[i].splitTimes, queue[i]);
  }

  /** `_write_to_xml` run twice leaves the segments as one run does. */
  lemma ApplyPlanIdempotent(segments: seq<Segment>, queue: seq<IDTime>)
    requires |queue| <= |segments| && QueueReadable(queue)
    ensures ApplyPlan(ApplyPlan(segments, queue), queue) == ApplyPlan(segments, queue)
  {
    var once := ApplyPlan(segments, queue);
    forall i | 0 <= i < |queue|
      ensures WriteSegment(once[i].splitTimes, queue[i]) == once[i].splitTimes
    {
      WriteSegmentIdempotent(segments[i].splitTimes, queue[i]);
    }
  }

  /** Line 312 strips every character Python counts as whitespace: a split
      named "Personal Best" followed by a no-break space is the one found. */
  lemma NoBreakSpaceNameFound()
    ensures FindPersonalBest([SplitTime(PersonalBest + "\U{A0}", [])]) == Some(0)
  {
    var name := PersonalBest + "\U{A0}";
    assert name[..|name| - 1] == PersonalBest;
    StripUnchanged(PersonalBest);
  }

  /** The finding at line 300: as written, writing succeeds exactly when the
      segment already has a "Personal Best" split, and then agrees with
      `WriteSegment`. */
  lemma WriteSegmentAsWrittenAgrees(splits: seq<SplitTime>, q: IDTime)
    requires q.HasReadableTimes()
    ensures (WriteSegmentAsWritten(splits, q).Some?
      <==> exists i :: 0 <= i < |splits| && Strip(splits[i].name) == PersonalBest)
    ensures WriteSegmentAsWritten(splits, q).Some? ==> WriteSegmentAsWritten(splits, q).value == WriteSegment(splits, q)
  {
  }

  /** A segment whose <SplitTimes> is empty: the code as written raises,
      where a new "Personal Best" split holding the times was meant. */
  lemma EmptySplitTimesCrash()
    ensures WriteSegmentAsWritten([], IDTime("A", NoneToken, NoneToken)) == None
    ensures WriteSegment([], IDTime("A", NoneToken, NoneToken)) == [SplitTime(PersonalBest, [])]
  {
  }
}
