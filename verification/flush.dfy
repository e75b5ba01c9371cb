/**
 * The periodic flush: turns the buffered tags into document writes for one
 * race, ensures the race's parent document first, then empties the buffer
 * whatever the store answered.
 */
module Flush {

  import opened TagBuffer
  import opened Datastore

  const RootCollection: string := "RFIDReaders"
  const DateField: string := "date"
  const TimeField: string := "time"
  const InitializedField: string := "initialized"
  const InitializedValue: string := "true"

  /** RFIDReaders/{race} */
  function AncestorPath(race: string): (p: Path)
    ensures |p| == 2 && p[1] == race
  {
    [RootCollection, race]
  }

  /** RFIDReaders/{race}/{reader}/{epc} */
  function TagPath(race: string, k: Key): (p: Path)
    ensures |p| == 4 && p[1] == race && p[2] == k.readerName && p[3] == k.epc
  {
    [RootCollection, race, k.readerName, k.epc]
  }

  /**
   * `ensureAncestorDocumentExists`: merge `initialized = "true"` into the race
   * document, a path no tag document ever has.
   */
  function AncestorWrite(race: string): (w: Write)
    ensures w.mode == Merge
    ensures w.fields.Keys == {InitializedField} && w.fields[InitializedField] == InitializedValue
    ensures |w.path| == 2 && w.path[0] == RootCollection && w.path[1] == race
  {
    Write(AncestorPath(race), map[InitializedField := InitializedValue], Merge)
  }

  /** The copied `{date, time}` map with `initialized = "true"` added. */
  function TagFields(rec: TagRecord): (f: Fields)
    ensures f.Keys == {DateField, TimeField, InitializedField}
    ensures f[DateField] == rec.date && f[TimeField] == rec.time && f[InitializedField] == InitializedValue
  {
    map[DateField := rec.date, TimeField := rec.time, InitializedField := InitializedValue]
  }

  /** The plain `set` of one buffered tag's document, at RFIDReaders/{race}/{reader}/{epc}. */
  function TagWrite(race: string, k: Key, rec: TagRecord): (w: Write)
    ensures w.path == TagPath(race, k) && w.mode == Overwrite && w.fields == TagFields(rec)
  {
    Write(TagPath(race, k), TagFields(rec), Overwrite)
  }

  /**
   * Each tag has its own document: two tag paths coincide only for the same
   * race and key, and no tag path is a race document's path.
   */
  lemma DocumentPathsDistinct(race: string, k: Key, race': string, k': Key)
    ensures TagPath(race, k) == TagPath(race', k') <==> race == race' && k == k'
    ensures TagPath(race, k) != AncestorPath(race')
  {
  }

  /**
   * An order in which the nested key-set loops may visit the buffer: every
   * key exactly once. Which order a hash map yields is left open.
   */
  ghost predicate IsEnumeration(order: seq<Key>, keys: set<Key>) {
    && NoRepeats(order)
    && (forall i :: 0 <= i < |order| ==> order[i] in keys)
    && (forall k :: k in keys ==> k in order)
  }

  /** No key appears twice. */
  ghost predicate NoRepeats(order: seq<Key>) {
    forall i, j :: 0 <= i < j < |order| ==> order[i] != order[j]
  }

  /** An enumeration is as long as the set it enumerates. */
  lemma {:induction false} EnumerationSize(order: seq<Key>, keys: set<Key>)
    requires IsEnumeration(order, keys)
    ensures |order| == |keys|
    decreases |order|
  {
    if order != [] {
      var n := |order| - 1;
      var last := order[n];
      var init := order[..n];
      assert forall i :: 0 <= i < n ==> init[i] == order[i];
      forall k | k in keys - {last}
        ensures k in init
      {
        var i :| 0 <= i < |order| && order[i] == k;
        assert i != n;
        assert init[i] == k;
      }
      assert forall i :: 0 <= i < n ==> init[i] != last;
      EnumerationSize(init, keys - {last});
    }
  }

  /**
   * The writes one flush of `b` issues for `race`: the ancestor merge first,
   * then one overwrite per buffered tag in the visiting order.
   */
  function FlushWrites(b: Buffer, race: string, order: seq<Key>): (ws: seq<Write>)
    requires forall i :: 0 <= i < |order| ==> order[i] in Keys(b)
    ensures |ws| == 1 + |order|
    ensures ws[0] == AncestorWrite(race)
    ensures forall i :: 1 <= i < |ws| ==> ws[i].path != AncestorPath(race) && ws[i].mode == Overwrite
    ensures forall i :: 0 <= i < |order| ==> ws[i + 1].path == TagPath(race, order[i])
  {
    seq(1 + |order|, i requires 0 <= i <= |order| =>
      if i == 0 then AncestorWrite(race) else TagWrite(race, order[i - 1], RecordAt(b, order[i - 1])))
  }

  /** Where a buffered tag's one write sits in the flush. */
  lemma TagWriteIndex(b: Buffer, race: string, order: seq<Key>, k: Key) returns (i: nat)
    requires IsEnumeration(order, Keys(b)) && k in Keys(b)
    ensures 1 <= i && SoleWriteAt(FlushWrites(b, race, order), i, TagWrite(race, k, RecordAt(b, k)))
  {
    var ws := FlushWrites(b, race, order);
    var w := TagWrite(race, k, RecordAt(b, k));
    var m :| 0 <= m < |order| && order[m] == k;
    i := m + 1;
    assert ws[i] == w;
    forall j | 0 <= j < |ws| && j != i
      ensures ws[j].path != w.path
    {
      if j > 0 {
        assert order[j - 1] != order[m];
        assert ws[j].path == TagPath(race, order[j - 1]);
        DocumentPathsDistinct(race, order[j - 1], race, k);
      }
    }
  }

  /**
   * Every buffered tag gets exactly one write, at its own path, carrying its
   * stored date and time plus `initialized`; no other write is issued.
   */
  lemma EachEntryWrittenOnce(b: Buffer, race: string, order: seq<Key>)
    requires IsEnumeration(order, Keys(b))
    ensures |FlushWrites(b, race, order)| == 1 + |Keys(b)|
    ensures forall k :: k in Keys(b) ==>
              exists i :: 1 <= i && SoleWriteAt(FlushWrites(b, race, order), i, TagWrite(race, k, RecordAt(b, k)))
    ensures forall i :: 1 <= i < |FlushWrites(b, race, order)| ==>
              exists k :: k in Keys(b) && FlushWrites(b, race, order)[i] == TagWrite(race, k, RecordAt(b, k))
  {
    EnumerationSize(order, Keys(b));
    var ws := FlushWrites(b, race, order);
    forall k | k in Keys(b)
      ensures exists i :: 1 <= i && SoleWriteAt(ws, i, TagWrite(race, k, RecordAt(b, k)))
    {
      var i := TagWriteIndex(b, race, order, k);
    }
    forall i | 1 <= i < |ws|
      ensures exists k :: k in Keys(b) && ws[i] == TagWrite(race, k, RecordAt(b, k))
    {
      assert ws[i] == TagWrite(race, order[i - 1], RecordAt(b, order[i - 1]));
    }
  }

  /** Flushing an empty buffer only ensures the race document: no tag writes. */
  lemma EmptyBufferFlushesNoTags(race: string, order: seq<Key>)
    requires IsEnumeration(order, Keys(Empty))
    ensures FlushWrites(Empty, race, order) == [AncestorWrite(race)]
  {
    assert Keys(Empty) == {};
    EnumerationSize(order, Keys(Empty));
  }

  /**
   * The race document after a flush: if the store accepted the merge it has
   * `initialized = "true"` and keeps its other fields, and nothing else; if not
   * it is as before.
   */
  lemma AncestorEffect(s: Store, b: Buffer, race: string, order: seq<Key>, accepts: Write -> bool)
    requires IsEnumeration(order, Keys(b))
    ensures var after := Commit(s, IssueAll(FlushWrites(b, race, order), accepts));
            var p := AncestorPath(race);
            && (accepts(AncestorWrite(race)) ==>
                  && p in after && InitializedField in after[p]
                  && after[p][InitializedField] == InitializedValue
                  && (p in s ==> forall f :: f in s[p] && f != InitializedField ==> f in after[p] && after[p][f] == s[p][f])
                  && after[p] == (if p in s then s[p] else map[])[InitializedField := InitializedValue])
            && (!accepts(AncestorWrite(race)) ==> SameAt(after, s, p))
  {
    var log := IssueAll(FlushWrites(b, race, order), accepts);
    var p := AncestorPath(race);
    if accepts(AncestorWrite(race)) {
      CommitSoleWrite(s, log, 0);
    } else {
      CommitUntouched(s, log, p);
    }
  }

  /**
   * One buffered tag's document after a flush: exactly its stored fields if
   * the store accepted its write, otherwise as before.
   */
  lemma TagEffect(s: Store, b: Buffer, race: string, order: seq<Key>, accepts: Write -> bool, k: Key)
    requires IsEnumeration(order, Keys(b)) && k in Keys(b)
    ensures var after := Commit(s, IssueAll(FlushWrites(b, race, order), accepts));
            var w := TagWrite(race, k, RecordAt(b, k));
            && (accepts(w) ==> w.path in after && after[w.path] == TagFields(RecordAt(b, k)))
            && (!accepts(w) ==> SameAt(after, s, w.path))
  {
    var i := TagWriteIndex(b, race, order, k);
    IssuedSoleWrite(s, FlushWrites(b, race, order), accepts, i);
  }

  /** A document that is neither the race document nor a buffered tag's is not touched. */
  lemma OtherDocumentsUntouched(s: Store, b: Buffer, race: string, order: seq<Key>, accepts: Write -> bool, p: Path)
    requires IsEnumeration(order, Keys(b))
    requires p != AncestorPath(race)
    requires forall k :: k in Keys(b) ==> p != TagPath(race, k)
    ensures SameAt(Commit(s, IssueAll(FlushWrites(b, race, order), accepts)), s, p)
  {
    var ws := FlushWrites(b, race, order);
    forall i | 0 <= i < |ws|
      ensures ws[i].path != p
    {
      if i > 0 {
        assert ws[i].path == TagPath(race, order[i - 1]);
      }
    }
    CommitUntouched(s, IssueAll(ws, accepts), p);
  }

  /** The log issued so far: the ancestor merge, then one entry per visited key, in visiting order. */
  ghost predicate IsFlushLogSoFar(b: Buffer, race: string, accepts: Write -> bool, order: seq<Key>, log: seq<Issued>) {
    && (forall i :: 0 <= i < |order| ==> order[i] in Keys(b))
    && |log| == 1 + |order|
    && log[0] == IssueOne(AncestorWrite(race), accepts)
    && forall i :: 0 <= i < |order| ==> log[i + 1] == IssueOne(TagWrite(race, order[i], RecordAt(b, order[i])), accepts)
  }

  /** Visiting one more key appends its write to the log. */
  lemma ExtendFlushLog(b: Buffer, race: string, accepts: Write -> bool, order: seq<Key>, log: seq<Issued>, k: Key)
    requires IsFlushLogSoFar(b, race, accepts, order, log) && NoRepeats(order)
    requires k in Keys(b) && k !in order
    ensures IsFlushLogSoFar(b, race, accepts, order + [k], log + [IssueOne(TagWrite(race, k, RecordAt(b, k)), accepts)])
    ensures NoRepeats(order + [k])
    ensures forall x :: x in order + [k] <==> x in order || x == k
  {
  }

  /** A log built key by key is the flush's write list with the store's verdicts. */
  lemma FlushLogComplete(b: Buffer, race: string, accepts: Write -> bool, order: seq<Key>, log: seq<Issued>)
    requires IsFlushLogSoFar(b, race, accepts, order, log)
    ensures log == IssueAll(FlushWrites(b, race, order), accepts)
  {
    var ws := FlushWrites(b, race, order);
    forall i | 1 <= i < |log|
      ensures log[i] == IssueOne(ws[i], accepts)
    {
      assert log[(i - 1) + 1] == IssueOne(TagWrite(race, order[i - 1], RecordAt(b, order[i - 1])), accepts);
    }
  }

  /**
   * The inner loop of `flushDataToFirestore`: one overwrite per EPC in
   * `reader`'s bucket, each verdict taken alone.
   */
  method FlushBucket(b: Buffer, race: string, accepts: Write -> bool, reader: string,
                     log0: seq<Issued>, ghost order0: seq<Key>)
    returns (log: seq<Issued>, ghost order: seq<Key>)
    requires reader in b
    requires IsFlushLogSoFar(b, race, accepts, order0, log0) && NoRepeats(order0)
    requires forall i :: 0 <= i < |order0| ==> order0[i].readerName != reader
    ensures IsFlushLogSoFar(b, race, accepts, order, log) && NoRepeats(order)
    ensures forall k :: k in order <==> k in order0 || (k.readerName == reader && k.epc in b[reader])
    ensures |log| == |log0| + |b[reader]| && log[..|log0|] == log0
  {
    log, order := log0, order0;
    var bucket := b[reader];
    var epcs := bucket.Keys;
    while epcs != {}
      invariant epcs <= bucket.Keys
      invariant IsFlushLogSoFar(b, race, accepts, order, log) && NoRepeats(order)
      invariant forall k :: k in order <==> k in order0 || (k.readerName == reader && k.epc in bucket && k.epc !in epcs)
      invariant |log| == |log0| + |bucket.Keys - epcs| && log[..|log0|] == log0
      decreases epcs
    {
      var epc :| epc in epcs;
      assert bucket.Keys - (epcs - {epc}) == (bucket.Keys - epcs) + {epc};
      var k := Key(reader, epc);
      assert k !in order;
      ExtendFlushLog(b, race, accepts, order, log, k);
      log := log + [IssueOne(TagWrite(race, k, bucket[epc]), accepts)];
      order := order + [k];
      epcs := epcs - {epc};
    }
    assert bucket.Keys - epcs == bucket.Keys;
  }

  /**
   * `flushDataToFirestore(race)`: issues the ancestor merge, then walks the
   * readers and each reader's EPCs issuing one overwrite per tag and taking
   * the store's verdict on each alone, then clears the buffer. The order the
   * loops happen to take is returned as `order`.
   */
  method FlushBuffer(b: Buffer, race: string, accepts: Write -> bool)
    returns (log: seq<Issued>, after: Buffer, ghost order: seq<Key>)
    ensures IsEnumeration(order, Keys(b))
    ensures log == IssueAll(FlushWrites(b, race, order), accepts)
    ensures |log| == 1 + |Keys(b)|
    ensures after == Empty
  {
    log := [IssueOne(AncestorWrite(race), accepts)];
    order := [];
    var readers := b.Keys;
    while readers != {}
      invariant readers <= b.Keys
      invariant IsFlushLogSoFar(b, race, accepts, order, log) && NoRepeats(order)
      invariant forall k :: k in order <==> k in Keys(b) && k.readerName !in readers
      decreases readers
    {
      var reader :| reader in readers;
      log, order := FlushBucket(b, race, accepts, reader, log, order);
      readers := readers - {reader};
    }
    FlushLogComplete(b, race, accepts, order, log);
    EnumerationSize(order, Keys(b));
    after := map[];
  }
}
