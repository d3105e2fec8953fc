/** The parts of a LiveSplit `.lss` document the repair reads and writes, and
    the records LSSFile.py keeps of them: `IDTime`, `data_by_tag`, the attempt
    search and the filters the loader applies. */
module Records {
  import opened Wrappers
  import opened Timecode

  /** A child element holding one text node: <RealTime>, <GameTime>, <Name>, ... */
  datatype Leaf = Leaf(tag: string, text: string)

  /** An element with an `id` attribute ("" when it has none) and leaf
      children: an <Attempt> of <AttemptHistory>, or a <Time> of a segment. */
  datatype Entry = Entry(id: string, children: seq<Leaf>)

  /** A <SplitTime name="..."> inside a segment's <SplitTimes> container. */
  datatype SplitTime = SplitTime(name: string, children: seq<Leaf>)

  /** A <Segment>: its leaf children (<Name>, ...), the <SplitTimes>
      containers found in it, and the <Time> elements of its history. */
  datatype SegmentElem = SegmentElem(children: seq<Leaf>, splitTimes: seq<seq<SplitTime>>, times: seq<Entry>)

  /** The document as the loader searches it: the <Attempt> entries of every
      <AttemptHistory>, and the <Segment> elements of every <Segments>. */
  datatype Document = Document(histories: seq<seq<Entry>>, segmentLists: seq<seq<SegmentElem>>)

  /** `IDTime`: an id (an attempt id, or a segment name in the write queue)
      with a RealTime and a GameTime text. */
  datatype IDTime = IDTime(id: string, rta: string, igt: string)
  {
    /** Neither `rta_secs` nor `igt_secs` raises. */
    predicate HasReadableTimes() { Readable(rta) && Readable(igt) }

    function RtaSecs(): int requires HasReadableTimes() { Secs(rta) }

    function IgtSecs(): int requires HasReadableTimes() { Secs(igt) }

    /** `is_valid` (LSSFile.py:91): the two times do not add up to 0. */
    predicate IsValid() requires HasReadableTimes() { RtaSecs() + IgtSecs() != 0 }
  }

  /** A row of `_segments`: the segment's name and its <SplitTimes> container. */
  datatype Segment = Segment(name: string, splitTimes: seq<SplitTime>)

  /** `data_by_tag` (LSSFile.py:54-58): the text of the first child with the
      tag, or "None" when there is none. */
  function DataByTag(children: seq<Leaf>, tag: string): (r: string)
    ensures (forall i :: 0 <= i < |children| ==> children[i].tag != tag) ==> r == NoneToken
    ensures forall k :: (0 <= k < |children| && children[k].tag == tag
      && forall j :: 0 <= j < k ==> children[j].tag != tag) ==> r == children[k].text
  {
    if children == [] then NoneToken
    else if children[0].tag == tag then children[0].text
    else
      assert forall i :: 1 <= i < |children| ==> children[i] == children[1..][i - 1];
      DataByTag(children[1..], tag)
  }

  /** `IDTime(element)` (LSSFile.py:75-78). */
  function IDTimeOf(e: Entry): IDTime
  {
    IDTime(e.id, DataByTag(e.children, "RealTime"), DataByTag(e.children, "GameTime"))
  }

  /** The index of the first record with the id: `_find_attempt`
      (LSSFile.py:239-242) over the attempts, and the inner search of
      `make_plan` (LSSFile.py:153-162) over a segment's records. */
  function FindId(records: seq<IDTime>, id: string): (r: Option<nat>)
    ensures r.None? <==> forall i :: 0 <= i < |records| ==> records[i].id != id
    ensures r.Some? ==> (r.value < |records| && records[r.value].id == id
      && forall j :: 0 <= j < r.value ==> records[j].id != id)
  {
    if records == [] then None
    else if records[0].id == id then Some(0)
    else match FindId(records[1..], id)
      case None => None
      case Some(k) => Some(k + 1)
  }

  /** `is_restorable` (LSSFile.py:131-133). */
  function IsRestorable(attempts: seq<IDTime>, id: string): (r: bool)
    ensures r <==> id != NoneToken && exists i :: 0 <= i < |attempts| && attempts[i].id == id
  {
    id != NoneToken && FindId(attempts, id).Some?
  }

  // ---------------------------------------------------------------- the loader's filters

  /** `attempt.hasChildNodes()`: an attempt that finished has recorded times. */
  predicate HasChildren(e: Entry) { e.children != [] }

  /** Every attempt the loader turns into an IDTime can be checked by `is_valid`
      without Python raising ValueError. */
  predicate AttemptsReadable(entries: seq<Entry>)
  {
    forall i :: 0 <= i < |entries| && HasChildren(entries[i]) ==> IDTimeOf(entries[i]).HasReadableTimes()
  }

  /** The attempts the loader keeps (LSSFile.py:253-256): those with children
      whose times are valid, in document order. */
  function Retained(entries: seq<Entry>): (r: seq<IDTime>)
    requires AttemptsReadable(entries)
    ensures |r| <= |entries|
    ensures forall k :: 0 <= k < |r| ==> r[k].HasReadableTimes() && r[k].IsValid()
  {
    if entries == [] then []
    else
      var n := |entries| - 1;
      var e := entries[n];
      assert forall i :: 0 <= i < n ==> entries[..n][i] == entries[i];
      var r := Retained(entries[..n]);
      if HasChildren(e) && IDTimeOf(e).IsValid() then r + [IDTimeOf(e)] else r
  }

  /** The <Time> records the loader keeps for a segment (LSSFile.py:283-290):
      those with a non-empty id that some retained attempt has, in document order. */
  function KeptTimes(times: seq<Entry>, attempts: seq<IDTime>): (r: seq<IDTime>)
    ensures |r| <= |times|
    ensures forall k :: 0 <= k < |r| ==> r[k].id != "" && FindId(attempts, r[k].id).Some?
  {
    if times == [] then []
    else
      var n := |times| - 1;
      var t := times[n];
      var r := KeptTimes(times[..n], attempts);
      if t.id != "" && FindId(attempts, t.id).Some? then r + [IDTimeOf(t)] else r
  }

  /** The loader keeps an <Attempt> entry: it has children and its times
      are valid. */
  predicate Kept(entries: seq<Entry>, i: nat)
    requires AttemptsReadable(entries) && i < |entries|
  {
    HasChildren(entries[i]) && IDTimeOf(entries[i]).IsValid()
  }

  /** Every attempt the loader retains comes from an entry it keeps. */
  lemma {:induction false} RetainedSound(entries: seq<Entry>, a: IDTime) returns (i: nat)
    requires AttemptsReadable(entries)
    requires a in Retained(entries)
    ensures i < |entries| && Kept(entries, i) && IDTimeOf(entries[i]) == a
  {
    var n := |entries| - 1;
    var front := entries[..n];
    assert AttemptsReadable(front) by {
      forall j | 0 <= j < n ensures front[j] == entries[j] { }
    }
    if a in Retained(front) {
      i := RetainedSound(front, a);
      assert front[i] == entries[i];
    } else {
      i := n;
    }
  }

  /** Every entry the loader keeps is among the retained attempts. */
  lemma {:induction false} RetainedComplete(entries: seq<Entry>, i: nat)
    requires AttemptsReadable(entries)
    requires i < |entries| && Kept(entries, i)
    ensures IDTimeOf(entries[i]) in Retained(entries)
  {
    var n := |entries| - 1;
    if i < n {
      RetainedStep(entries);
      assert entries[..n][i] == entries[i];
      RetainedComplete(entries[..n], i);
    } else {
      RetainedLast(entries, i);
    }
  }

  lemma RetainedLast(entries: seq<Entry>, i: nat)
    requires AttemptsReadable(entries)
    requires i == |entries| - 1 && Kept(entries, i)
    ensures IDTimeOf(entries[i]) in Retained(entries)
  {
    RetainedStep(entries);
  }

  /** The last entry is retained after the ones before it exactly when the
      loader keeps it. */
  lemma RetainedStep(entries: seq<Entry>)
    requires AttemptsReadable(entries) && entries != []
    ensures AttemptsReadable(entries[..|entries| - 1])
    ensures Retained(entries) == if Kept(entries, |entries| - 1)
      then Retained(entries[..|entries| - 1]) + [IDTimeOf(entries[|entries| - 1])]
      else Retained(entries[..|entries| - 1])
  {
    var n := |entries| - 1;
    assert forall j :: 0 <= j < n ==> entries[..n][j] == entries[j];
  }

  /** The attempts are retained in document order, one for each kept entry:
      the entries of a later part of the history come after those of an
      earlier part. */
  lemma {:induction false} RetainedAppend(a: seq<Entry>, b: seq<Entry>)
    requires AttemptsReadable(a + b)
    ensures AttemptsReadable(a) && AttemptsReadable(b)
    ensures Retained(a + b) == Retained(a) + Retained(b)
    decreases |b|
  {
    ReadableParts(a, b);
    if b == [] {
      assert a + b == a;
    } else {
      var n := |b| - 1;
      var ab := a + b;
      assert ab[..|ab| - 1] == a + b[..n];
      assert ab[|ab| - 1] == b[n];
      RetainedStep(ab);
      RetainedStep(b);
      RetainedAppend(a, b[..n]);
    }
  }

  /** The parts of a readable history are readable. */
  lemma ReadableParts(a: seq<Entry>, b: seq<Entry>)
    requires AttemptsReadable(a + b)
    ensures AttemptsReadable(a) && AttemptsReadable(b)
  {
    forall i | 0 <= i < |a| && HasChildren(a[i]) ensures IDTimeOf(a[i]).HasReadableTimes() {
      assert (a + b)[i] == a[i];
    }
    forall i | 0 <= i < |b| && HasChildren(b[i]) ensures IDTimeOf(b[i]).HasReadableTimes() {
      assert (a + b)[|a| + i] == b[i];
    }
  }

  /** A single entry is retained, once, exactly when the loader keeps it. */
  lemma RetainedOne(e: Entry)
    requires AttemptsReadable([e])
    ensures Retained([e]) == if Kept([e], 0) then [IDTimeOf(e)] else []
  {
    RetainedStep([e]);
  }

  /** Every record kept for a segment comes from one of its <Time> entries
      with a non-empty id that a retained attempt has. */
  lemma {:induction false} KeptTimesSound(times: seq<Entry>, attempts: seq<IDTime>, r: IDTime) returns (i: nat)
    requires r in KeptTimes(times, attempts)
    ensures i < |times| && times[i].id != "" && FindId(attempts, times[i].id).Some? && IDTimeOf(times[i]) == r
  {
    var n := |times| - 1;
    var front := times[..n];
    if r in KeptTimes(front, attempts) {
      i := KeptTimesSound(front, attempts, r);
      assert front[i] == times[i];
    } else {
      i := n;
    }
  }

  /** Every <Time> entry with a non-empty id that a retained attempt has is
      kept for its segment. */
  lemma {:induction false} KeptTimesComplete(times: seq<Entry>, attempts: seq<IDTime>, i: nat)
    requires i < |times| && times[i].id != "" && FindId(attempts, times[i].id).Some?
    ensures IDTimeOf(times[i]) in KeptTimes(times, attempts)
  {
    var n := |times| - 1;
    if i < n {
      assert times[..n][i] == times[i];
      KeptTimesComplete(times[..n], attempts, i);
    }
  }

  /** The records are kept in document order, one for each qualifying
      <Time> entry: those of a later part come after those of an earlier part. */
  lemma {:induction false} KeptTimesAppend(a: seq<Entry>, b: seq<Entry>, attempts: seq<IDTime>)
    ensures KeptTimes(a + b, attempts) == KeptTimes(a, attempts) + KeptTimes(b, attempts)
    decreases |b|
  {
    if b == [] {
      assert a + b == a;
    } else {
      var n := |b| - 1;
      assert (a + b)[..|a + b| - 1] == a + b[..n];
      KeptTimesAppend(a, b[..n], attempts);
    }
  }

  /** A single <Time> entry is kept, once, exactly when its id is non-empty
      and a retained attempt has it. */
  lemma KeptTimesOne(t: Entry, attempts: seq<IDTime>)
    ensures KeptTimes([t], attempts) == if t.id != "" && FindId(attempts, t.id).Some? then [IDTimeOf(t)] else []
  {
    assert [t][..0] == [];
  }

  /** The index of the first segment without exactly one <SplitTimes>, or the
      number of segments when every one has exactly one. */
  function FirstBadSegment(segs: seq<SegmentElem>): (k: nat)
    ensures k <= |segs|
    ensures forall j :: 0 <= j < k ==> |segs[j].splitTimes| == 1
    ensures k < |segs| ==> |segs[k].splitTimes| != 1
  {
    if segs == [] || |segs[0].splitTimes| != 1 then 0
    else 1 + FirstBadSegment(segs[1..])
  }

  /** The `_segments` row of a segment (LSSFile.py:279). */
  function SegmentRow(seg: SegmentElem): Segment
    requires seg.splitTimes != []
  {
    Segment(DataByTag(seg.children, "Name"), seg.splitTimes[0])
  }

  /** The `_segments` rows of segments that each have a <SplitTimes>. */
  function SegmentRows(segs: seq<SegmentElem>): (r: seq<Segment>)
    requires forall j :: 0 <= j < |segs| ==> segs[j].splitTimes != []
    ensures |r| == |segs|
    ensures forall j :: 0 <= j < |segs| ==> r[j] == SegmentRow(segs[j])
  {
    seq(|segs|, j requires 0 <= j < |segs| => SegmentRow(segs[j]))
  }

  /** The `_times` rows of segments. */
  function TimeRows(segs: seq<SegmentElem>, attempts: seq<IDTime>): (r: seq<seq<IDTime>>)
    ensures |r| == |segs|
    ensures forall j :: 0 <= j < |segs| ==> r[j] == KeptTimes(segs[j].times, attempts)
  {
    seq(|segs|, j requires 0 <= j < |segs| => KeptTimes(segs[j].times, attempts))
  }

  /** The code `_validate_and_populate` returns (LSSFile.py:244-294): the first
      check that fails, in the order the loader makes them. */
  function LoadCode(doc: Document): (code: int)
    requires |doc.histories| == 1 ==> AttemptsReadable(doc.histories[0])
    ensures code == -1 <==> |doc.histories| != 1
    ensures code == 0 <==> (|doc.histories| == 1 && Retained(doc.histories[0]) == [])
    ensures code == -2 <==> (|doc.histories| == 1 && Retained(doc.histories[0]) != []
      && doc.segmentLists == [])
    ensures code == -3 <==> (|doc.histories| == 1 && Retained(doc.histories[0]) != []
      && doc.segmentLists != [] && doc.segmentLists[0] == [])
    ensures code == -4 <==> (|doc.histories| == 1 && Retained(doc.histories[0]) != []
      && doc.segmentLists != [] && doc.segmentLists[0] != []
      && exists j :: 0 <= j < |doc.segmentLists[0]| && |doc.segmentLists[0][j].splitTimes| != 1)
    ensures code == 1 <==> (|doc.histories| == 1 && Retained(doc.histories[0]) != []
      && doc.segmentLists != [] && doc.segmentLists[0] != []
      && forall j :: 0 <= j < |doc.segmentLists[0]| ==> |doc.segmentLists[0][j].splitTimes| == 1)
  {
    if |doc.histories| != 1 then -1
    else if Retained(doc.histories[0]) == [] then 0
    else if doc.segmentLists == [] then -2
    else if doc.segmentLists[0] == [] then -3
    else if FirstBadSegment(doc.segmentLists[0]) < |doc.segmentLists[0]| then -4
    else 1
  }

  /** The attempts the loader leaves in `_attempts`: none when it stops at
      the first check. */
  function LoadedAttempts(doc: Document): (r: seq<IDTime>)
    requires |doc.histories| == 1 ==> AttemptsReadable(doc.histories[0])
    ensures forall k :: 0 <= k < |r| ==> r[k].HasReadableTimes() && r[k].IsValid()
  {
    if |doc.histories| == 1 then Retained(doc.histories[0]) else []
  }

  /** The segments the loader has made rows for when it returns: those
      before the first one without exactly one <SplitTimes>, once the
      attempts and the <Segments> element have passed; none otherwise. */
  function LoadedSegments(doc: Document): (r: seq<SegmentElem>)
    requires |doc.histories| == 1 ==> AttemptsReadable(doc.histories[0])
    ensures forall j :: 0 <= j < |r| ==> |r[j].splitTimes| == 1
    ensures LoadCode(doc) == 1 ==> r == doc.segmentLists[0]
    ensures LoadCode(doc) == -4 ==> (|r| < |doc.segmentLists[0]| && r == doc.segmentLists[0][..|r|]
      && |doc.segmentLists[0][|r|].splitTimes| != 1)
    ensures LoadCode(doc) != 1 && LoadCode(doc) != -4 ==> r == []
  {
    if |doc.histories| != 1 || Retained(doc.histories[0]) == [] || doc.segmentLists == [] then []
    else
      var segs := doc.segmentLists[0];
      segs[..FirstBadSegment(segs)]
  }

  /** Every text of the write queue can be read by `rta_secs`/`igt_secs`. */
  predicate QueueReadable(queue: seq<IDTime>)
  {
    forall i :: 0 <= i < |queue| ==> queue[i].HasReadableTimes()
  }
}
