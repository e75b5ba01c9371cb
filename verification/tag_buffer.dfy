/**
 * The shared tag buffer: reader host name -> EPC -> the latest date and time
 * seen for that tag. Writes are last-write-wins and a reader's bucket is
 * created on its first tag.
 */
module TagBuffer {

  import opened Wrappers
  import opened TagEvents

  /** The `{date, time}` map stored per tag. */
  datatype TagRecord = TagRecord(date: string, time: string)

  type Bucket = map<string, TagRecord>

  type Buffer = map<string, Bucket>

  /** One buffered entry's position: which reader, which EPC. */
  datatype Key = Key(readerName: string, epc: string)

  const Empty: Buffer := map[]

  function RecordOf(d: Detection): TagRecord {
    TagRecord(d.date, d.time)
  }

  function KeyOf(d: Detection): Key {
    Key(d.readerName, d.epc)
  }

  function Lookup(b: Buffer, k: Key): Option<TagRecord> {
    if k.readerName in b && k.epc in b[k.readerName] then Some(b[k.readerName][k.epc]) else None
  }

  /** Every (reader, EPC) pair the buffer holds a record for. */
  function Keys(b: Buffer): (ks: set<Key>)
    ensures forall k :: k in ks <==> Lookup(b, k).Some?
  {
    set r, e | r in b && e in b[r] :: Key(r, e)
  }

  function RecordAt(b: Buffer, k: Key): (rec: TagRecord)
    requires k in Keys(b)
    ensures Lookup(b, k) == Some(rec)
  {
    b[k.readerName][k.epc]
  }

  /**
   * `bufferTagData(epc, readerName, date, time)`: `computeIfAbsent` the
   * reader's bucket, then `put` the record under the EPC.
   */
  function Put(b: Buffer, epc: string, readerName: string, date: string, time: string): (r: Buffer)
    ensures Lookup(r, Key(readerName, epc)) == Some(TagRecord(date, time))
    ensures forall k :: k != Key(readerName, epc) ==> Lookup(r, k) == Lookup(b, k)
    ensures r.Keys == b.Keys + {readerName}
    ensures forall other :: other in b && other != readerName ==> r[other] == b[other]
    ensures readerName !in b ==> r[readerName] == map[epc := TagRecord(date, time)]
    ensures readerName in b ==> r[readerName].Keys == b[readerName].Keys + {epc}
  {
    var bucket := if readerName in b then b[readerName] else map[];
    b[readerName := bucket[epc := TagRecord(date, time)]]
  }

  /** A put adds exactly its own key to the buffer's set of keys. */
  lemma PutKeys(b: Buffer, epc: string, readerName: string, date: string, time: string)
    ensures Keys(Put(b, epc, readerName, date, time)) == Keys(b) + {Key(readerName, epc)}
  {
  }

  function PutDetection(b: Buffer, d: Detection): Buffer {
    Put(b, d.epc, d.readerName, d.date, d.time)
  }

  /** A detection's put seen from one key: its record if the key is the detection's, else no change. */
  lemma PutDetectionLookup(b: Buffer, d: Detection, k: Key)
    ensures Lookup(PutDetection(b, d), k) == if KeyOf(d) == k then Some(RecordOf(d)) else Lookup(b, k)
  {
  }

  /** The buffer after a series of detections, applied in order. */
  function PutAll(b: Buffer, ds: seq<Detection>): Buffer
    decreases |ds|
  {
    if ds == [] then b else PutDetection(PutAll(b, ds[..|ds| - 1]), ds[|ds| - 1])
  }

  /** Two puts to the same key: the second record replaces the first. */
  lemma LastWriteWins(b: Buffer, epc: string, readerName: string, d1: string, t1: string, d2: string, t2: string)
    ensures Put(Put(b, epc, readerName, d1, t1), epc, readerName, d2, t2) == Put(b, epc, readerName, d2, t2)
  {
    var bucket := if readerName in b then b[readerName] else map[];
    assert bucket[epc := TagRecord(d1, t1)][epc := TagRecord(d2, t2)] == bucket[epc := TagRecord(d2, t2)];
  }

  /** Puts to different keys commute: order matters only within one key. */
  lemma PutsToDistinctKeysCommute(b: Buffer, x: Detection, y: Detection)
    requires KeyOf(x) != KeyOf(y)
    ensures PutDetection(PutDetection(b, x), y) == PutDetection(PutDetection(b, y), x)
  {
    if x.readerName == y.readerName {
      var bucket := if x.readerName in b then b[x.readerName] else map[];
      assert bucket[x.epc := RecordOf(x)][y.epc := RecordOf(y)]
          == bucket[y.epc := RecordOf(y)][x.epc := RecordOf(x)];
    }
  }

  /** Detections for other keys leave a key's record as it was. */
  lemma {:induction false} PutAllUntouched(b: Buffer, ds: seq<Detection>, k: Key)
    requires forall i :: 0 <= i < |ds| ==> KeyOf(ds[i]) != k
    ensures Lookup(PutAll(b, ds), k) == Lookup(b, k)
    decreases |ds|
  {
    if ds != [] {
      var n := |ds| - 1;
      assert forall i :: 0 <= i < n ==> ds[..n][i] == ds[i];
      PutAllUntouched(b, ds[..n], k);
    }
  }

  /**
   * After a series of puts, a key holds the record of the LAST detection
   * naming it.
   */
  lemma {:induction false} PutAllKeepsLatest(b: Buffer, ds: seq<Detection>, k: Key, i: nat)
    requires i < |ds| && KeyOf(ds[i]) == k
    requires forall j :: i < j < |ds| ==> KeyOf(ds[j]) != k
    ensures Lookup(PutAll(b, ds), k) == Some(RecordOf(ds[i]))
    decreases |ds|
  {
    var n := |ds| - 1;
    var init := ds[..n];
    PutDetectionLookup(PutAll(b, init), ds[n], k);
    if i < n {
      assert init[i] == ds[i];
      assert forall j :: i < j < n ==> KeyOf(init[j]) != k by {
        forall j | i < j < n
          ensures KeyOf(init[j]) != k
        {
          assert init[j] == ds[j];
        }
      }
      PutAllKeepsLatest(b, init, k, i);
    }
  }

  /** Every key of the buffer after the puts was either there before or put. */
  lemma {:induction false} PutAllKeys(b: Buffer, ds: seq<Detection>)
    ensures Keys(PutAll(b, ds)) == Keys(b) + set i | 0 <= i < |ds| :: KeyOf(ds[i])
    decreases |ds|
  {
    if ds != [] {
      var n := |ds| - 1;
      PutAllKeys(b, ds[..n]);
      PutKeys(PutAll(b, ds[..n]), ds[n].epc, ds[n].readerName, ds[n].date, ds[n].time);
      assert forall i :: 0 <= i < n ==> ds[..n][i] == ds[i];
      assert (set i | 0 <= i < |ds| :: KeyOf(ds[i]))
          == (set i | 0 <= i < n :: KeyOf(ds[..n][i])) + {KeyOf(ds[n])};
    }
  }
}
