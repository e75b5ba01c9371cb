/**
 * The buffer as the tag-report listeners and the flush timer drive it. Each
 * tag's `bufferTagData` call (one per tag of a report, each its own
 * `synchronized` section) and each timer tick is one atomic step, so a tick
 * may fall between two tags of one report. The UI state a step reads -- the
 * filter checkbox, the race-name text field -- arrives with the event.
 */
module Pipeline {

  import opened Wrappers
  import opened JavaString
  import opened TagEvents
  import opened TagBuffer
  import opened Datastore
  import opened Flush

  /**
   * One tag detection (with the filter checkbox's state when it arrived) or a
   * timer tick (with the race-name field's text when it fired).
   */
  datatype Event = Detected(tag: Detection, filterOn: bool) | Tick(raceField: string)

  /** What a flushing tick drained, and the race it is written under. */
  datatype Batch = Batch(race: string, snapshot: Buffer)

  datatype StepResult = StepResult(buffer: Buffer, batch: Option<Batch>)

  datatype RunResult = RunResult(buffer: Buffer, batches: seq<Batch>)

  /** The timer's gate: the trimmed race name, or None when nothing is left after trimming. */
  function RaceName(raceField: string): (r: Option<string>)
    ensures r.None? <==> AllStrippable(raceField)
    ensures r.Some? ==> r.value == Trim(raceField) && r.value != []
  {
    var race := Trim(raceField);
    if race == [] then None else Some(race)
  }

  /** A tick that goes on to flush. */
  predicate Flushes(ev: Event) {
    ev.Tick? && RaceName(ev.raceField).Some?
  }

  /** A tag detection that reaches the buffer under key `k`. */
  predicate PutsKey(ev: Event, k: Key) {
    ev.Detected? && Admits(ev.filterOn, ev.tag.epc) && KeyOf(ev.tag) == k
  }

  /**
   * One atomic step. A tag detection is buffered when the filter admits it. A
   * tick with an empty race name does nothing; otherwise it drains the whole
   * buffer into a batch for the trimmed race name.
   */
  function Step(b: Buffer, ev: Event): (r: StepResult)
    ensures ev.Detected? ==> r.batch.None?
    ensures r.batch.Some? <==> Flushes(ev)
    ensures Flushes(ev) ==> r.buffer == Empty && r.batch.value.snapshot == b
  {
    match ev
    case Detected(d, filterOn) =>
      if Admits(filterOn, d.epc) then StepResult(PutDetection(b, d), None) else StepResult(b, None)
    case Tick(field) =>
      match RaceName(field)
      case None => StepResult(b, None)
      case Some(race) => StepResult(Empty, Some(Batch(race, b)))
  }

  /** The buffer and the drained batches after a series of steps, in order. */
  function Run(b: Buffer, es: seq<Event>): (r: RunResult)
    ensures |r.batches| <= |es|
    decreases |es|
  {
    if es == [] then RunResult(b, [])
    else
      var prev := Run(b, es[..|es| - 1]);
      var st := Step(prev.buffer, es[|es| - 1]);
      RunResult(st.buffer, prev.batches + (if st.batch.Some? then [st.batch.value] else []))
  }

  /** The tags a series of tag detections carries, in order. */
  function Tags(es: seq<Event>): (ds: seq<Detection>)
    requires forall i :: 0 <= i < |es| ==> es[i].Detected?
    ensures |ds| == |es| && forall i :: 0 <= i < |es| ==> ds[i] == es[i].tag
  {
    seq(|es|, i requires 0 <= i < |es| => es[i].tag)
  }

  /** The tags of a prefix are the prefix of the tags. */
  lemma TagsPrefix(es: seq<Event>, n: nat)
    requires n <= |es| && forall i :: 0 <= i < |es| ==> es[i].Detected?
    ensures Tags(es[..n]) == Tags(es)[..n]
  {
    assert forall i :: 0 <= i < n ==> es[..n][i] == es[i];
  }

  /** The last event of a run being an admitted tag detection: one more put, no batch. */
  lemma RunEndingInDetection(b: Buffer, es: seq<Event>)
    requires es != [] && es[|es| - 1].Detected?
    requires Admits(es[|es| - 1].filterOn, es[|es| - 1].tag.epc)
    ensures var prev := Run(b, es[..|es| - 1]);
            Run(b, es) == RunResult(PutDetection(prev.buffer, es[|es| - 1].tag), prev.batches)
  {
    var prev := Run(b, es[..|es| - 1]);
    assert prev.batches + [] == prev.batches;
  }

  /**
   * A run of admitted tag detections and nothing else drains nothing and leaves
   * the buffer the series of puts `PutAll` describes.
   */
  lemma {:induction false} DetectionsOnlyRunIsPutAll(b: Buffer, es: seq<Event>)
    requires forall i :: 0 <= i < |es| ==> es[i].Detected? && Admits(es[i].filterOn, es[i].tag.epc)
    ensures Run(b, es) == RunResult(PutAll(b, Tags(es)), [])
    decreases |es|
  {
    if es != [] {
      var n := |es| - 1;
      var init := es[..n];
      assert forall i :: 0 <= i < n ==> init[i] == es[i];
      DetectionsOnlyRunIsPutAll(b, init);
      RunEndingInDetection(b, es);
      TagsPrefix(es, n);
      var ds := Tags(es);
      assert PutAll(b, ds) == PutDetection(PutAll(b, ds[..n]), ds[n]);
    }
  }

  /**
   * A tag detection puts its record in the buffer if and only if filtering is
   * off or the EPC has at most nine characters; a rejected one changes nothing.
   */
  lemma ReachesBufferIffAdmitted(b: Buffer, d: Detection, filterOn: bool)
    ensures Lookup(b, KeyOf(d)) != Some(RecordOf(d)) ==>
              (Lookup(Step(b, Detected(d, filterOn)).buffer, KeyOf(d)) == Some(RecordOf(d))
               <==> (!filterOn || |d.epc| <= 9))
    ensures !Admits(filterOn, d.epc) ==> Step(b, Detected(d, filterOn)).buffer == b
  {
  }

  /** A tick whose race name trims to nothing (empty or blank) issues nothing and keeps the buffer. */
  lemma BlankRaceNameSkips(b: Buffer, raceField: string)
    requires AllStrippable(raceField)
    ensures Step(b, Tick(raceField)) == StepResult(b, None)
  {
  }

  /**
   * Two flushing ticks with no tag detection between them: the second drains an
   * empty buffer, so whatever order its loops take it writes only the race
   * document.
   */
  lemma SecondFlushWritesNoTags(b: Buffer, field1: string, field2: string)
    requires Flushes(Tick(field1)) && Flushes(Tick(field2))
    ensures var second := Step(Step(b, Tick(field1)).buffer, Tick(field2)).batch.value;
            && Keys(second.snapshot) == {}
            && forall order :: IsEnumeration(order, Keys(second.snapshot)) ==>
                 FlushWrites(second.snapshot, second.race, order) == [AncestorWrite(second.race)]
  {
    var second := Step(Step(b, Tick(field1)).buffer, Tick(field2)).batch.value;
    assert Keys(Empty) == {};
    forall order | IsEnumeration(order, Keys(second.snapshot))
      ensures FlushWrites(second.snapshot, second.race, order) == [AncestorWrite(second.race)]
    {
      EmptyBufferFlushesNoTags(second.race, order);
    }
  }

  /** One step seen from one key: a flush empties it, a put of the key sets it, anything else keeps it. */
  lemma StepLookup(b: Buffer, ev: Event, k: Key)
    ensures Lookup(Step(b, ev).buffer, k)
            == if Flushes(ev) then None else if PutsKey(ev, k) then Some(RecordOf(ev.tag)) else Lookup(b, k)
  {
    if ev.Detected? && Admits(ev.filterOn, ev.tag.epc) {
      PutDetectionLookup(b, ev.tag, k);
    }
  }

  /** The last step of a run seen from one key. */
  lemma RunLastLookup(b: Buffer, es: seq<Event>, k: Key)
    requires es != []
    ensures var last := es[|es| - 1];
            Lookup(Run(b, es).buffer, k)
            == if Flushes(last) then None
               else if PutsKey(last, k) then Some(RecordOf(last.tag))
               else Lookup(Run(b, es[..|es| - 1]).buffer, k)
  {
    StepLookup(Run(b, es[..|es| - 1]).buffer, es[|es| - 1], k);
  }

  /** The last event of a run being a flushing tick: the buffer drained into one more batch. */
  lemma RunEndingInFlush(b: Buffer, es: seq<Event>)
    requires es != [] && Flushes(es[|es| - 1])
    ensures var prev := Run(b, es[..|es| - 1]);
            Run(b, es)
            == RunResult(Empty, prev.batches + [Batch(RaceName(es[|es| - 1].raceField).value, prev.buffer)])
  {
  }

  /**
   * A buffered key stays buffered until the next flushing tick: later tag
   * detections only add or replace, blank ticks do nothing.
   */
  lemma {:induction false} StaysBufferedUntilDrain(b: Buffer, es: seq<Event>, i: nat)
    requires i < |es| && es[i].Detected? && Admits(es[i].filterOn, es[i].tag.epc)
    requires forall j :: i < j < |es| ==> !Flushes(es[j])
    ensures KeyOf(es[i].tag) in Keys(Run(b, es).buffer)
    decreases |es|
  {
    var n := |es| - 1;
    var k := KeyOf(es[i].tag);
    RunLastLookup(b, es, k);
    if i < n {
      var init := es[..n];
      assert init[i] == es[i];
      assert forall j :: i < j < n ==> init[j] == es[j];
      StaysBufferedUntilDrain(b, init, i);
    }
  }

  /**
   * Last write wins up to the drain: with no later detection of the same key
   * and no flush since, the buffer holds exactly the last detection's date and time.
   */
  lemma {:induction false} HoldsLatestUntilDrain(b: Buffer, es: seq<Event>, i: nat)
    requires i < |es| && es[i].Detected? && Admits(es[i].filterOn, es[i].tag.epc)
    requires forall j :: i < j < |es| ==> !Flushes(es[j]) && !PutsKey(es[j], KeyOf(es[i].tag))
    ensures Lookup(Run(b, es).buffer, KeyOf(es[i].tag)) == Some(RecordOf(es[i].tag))
    decreases |es|
  {
    var n := |es| - 1;
    var k := KeyOf(es[i].tag);
    RunLastLookup(b, es, k);
    if i < n {
      var init := es[..n];
      assert init[i] == es[i];
      assert forall j :: i < j < n ==> init[j] == es[j];
      HoldsLatestUntilDrain(b, init, i);
    }
  }

  /**
   * After a flushing tick a key is gone from the buffer until a new detection
   * puts it back: nothing drained is drained again.
   */
  lemma {:induction false} GoneAfterDrain(b: Buffer, es: seq<Event>, j: nat, k: Key)
    requires j < |es| && Flushes(es[j])
    requires forall m :: j < m < |es| ==> !PutsKey(es[m], k)
    ensures Lookup(Run(b, es).buffer, k).None?
    decreases |es|
  {
    var n := |es| - 1;
    RunLastLookup(b, es, k);
    if j < n {
      var init := es[..n];
      assert init[j] == es[j];
      assert forall m :: j < m < n ==> init[m] == es[m];
      GoneAfterDrain(b, init, j, k);
    }
  }

  /**
   * A buffered detection is drained by exactly the first flushing tick after
   * it: that tick's batch, for the trimmed race name, holds its key, and the
   * buffer left behind does not.
   */
  lemma DrainedByNextFlush(b: Buffer, es: seq<Event>, i: nat, j: nat)
    requires i < j < |es| && es[i].Detected? && Admits(es[i].filterOn, es[i].tag.epc)
    requires Flushes(es[j])
    requires forall m :: i < m < j ==> !Flushes(es[m])
    ensures var before := Run(b, es[..j]);
            && Run(b, es[..j + 1]).batches
               == before.batches + [Batch(RaceName(es[j].raceField).value, before.buffer)]
            && KeyOf(es[i].tag) in Keys(before.buffer)
            && Lookup(Run(b, es[..j + 1]).buffer, KeyOf(es[i].tag)).None?
  {
    var upto := es[..j + 1];
    assert upto[..j] == es[..j] && upto[j] == es[j];
    RunEndingInFlush(b, upto);
    assert forall m :: i < m < j ==> es[..j][m] == es[m];
    StaysBufferedUntilDrain(b, es[..j], i);
  }

  /**
   * One timer tick as the timer task runs it: trim the race name; if it is
   * empty skip the flush, otherwise flush the buffer under the trimmed name.
   */
  method TimerTick(b: Buffer, raceField: string, accepts: Write -> bool)
    returns (log: seq<Issued>, after: Buffer, ghost order: seq<Key>)
    ensures AllStrippable(raceField) ==> log == [] && after == b
    ensures !AllStrippable(raceField) ==>
              && IsEnumeration(order, Keys(b))
              && log == IssueAll(FlushWrites(b, Trim(raceField), order), accepts)
              && after == Empty
    ensures after == Step(b, Tick(raceField)).buffer
  {
    match RaceName(raceField)
    case None =>
      log, after, order := [], b, [];
    case Some(race) =>
      log, after, order := FlushBuffer(b, race, accepts);
  }

  /** Two detections of one key, then a flush: the batch holds only the later record. */
  lemma ScenarioLaterDetectionWins()
    ensures var first := Detection("EPC123", "R1", "2024-01-01", "10:00:00");
            var second := Detection("EPC123", "R1", "2024-01-01", "10:00:05");
            Run(Empty, [Detected(first, false), Detected(second, false), Tick("Race")]).batches
            == [Batch("Race", map["R1" := map["EPC123" := TagRecord("2024-01-01", "10:00:05")]])]
  {
    var first := Detection("EPC123", "R1", "2024-01-01", "10:00:00");
    var second := Detection("EPC123", "R1", "2024-01-01", "10:00:05");
    var es := [Detected(first, false), Detected(second, false), Tick("Race")];
    assert es[..2][..1] == es[..1] && es[..1][..0] == [];
    assert Run(Empty, es[..1]).buffer == map["R1" := map["EPC123" := RecordOf(first)]];
    LastWriteWins(Empty, "EPC123", "R1", first.date, first.time, second.date, second.time);
    assert Run(Empty, es[..2]).buffer == map["R1" := map["EPC123" := RecordOf(second)]];
    assert Trim("Race") == "Race" by {
      TrimUnique("Race", [], "Race", []);
    }
    assert Run(Empty, es[..1]).batches == [];
    assert Step(Run(Empty, es[..1]).buffer, es[1]).batch.None?;
    assert Run(Empty, es[..2]).batches == [];
    assert RaceName("Race") == Some("Race");
    assert es[..3] == es;
    assert Run(Empty, es).batches == [Batch("Race", Run(Empty, es[..2]).buffer)];
  }

  /** With the filter on, a 12-character EPC is dropped and a 9-character one is buffered. */
  lemma ScenarioFilter()
    ensures Step(Empty, Detected(Detection("E28011606000", "R1", "d", "t"), true)).buffer == Empty
    ensures Step(Empty, Detected(Detection("E28011606", "R1", "d", "t"), true)).buffer
            == map["R1" := map["E28011606" := TagRecord("d", "t")]]
  {
  }
}
