/**
 * The remote document store, reduced to what the flush needs: a write names
 * a document path, a field map and a mode (merge or overwrite); the store
 * either accepts or rejects each write on its own, and the flush only logs
 * the verdict.
 */
module Datastore {

  /** Alternating collection and document ids, e.g. ["RFIDReaders", race]. */
  type Path = seq<string>

  type Fields = map<string, string>

  /** `set(fields, SetOptions.merge())` versus plain `set(fields)`. */
  datatype Mode = Merge | Overwrite

  datatype Write = Write(path: Path, fields: Fields, mode: Mode)

  /**
   * The verdict the flush sees on one write: the future completed or threw.
   * A throw is taken to mean the write did not land.
   */
  datatype Outcome = Succeeded | Failed

  /** A write as issued by the flush, with the store's verdict on it. */
  datatype Issued = Issued(write: Write, outcome: Outcome)

  /** Document contents by path. */
  type Store = map<Path, Fields>

  /** One write as a verdict oracle decides it. */
  function IssueOne(w: Write, accepts: Write -> bool): (r: Issued)
    ensures r.write == w
    ensures r.outcome == Succeeded <==> accepts(w)
  {
    Issued(w, if accepts(w) then Succeeded else Failed)
  }

  /**
   * Issues every write in order; each verdict affects only its own entry, so
   * a rejected write neither stops nor changes the ones after it.
   */
  function IssueAll(ws: seq<Write>, accepts: Write -> bool): (log: seq<Issued>)
    ensures |log| == |ws|
    ensures forall i :: 0 <= i < |ws| ==> log[i].write == ws[i]
    ensures forall i :: 0 <= i < |ws| ==> (log[i].outcome == Succeeded <==> accepts(ws[i]))
  {
    seq(|ws|, i requires 0 <= i < |ws| => IssueOne(ws[i], accepts))
  }

  /**
   * Effect of an accepted write. An overwrite replaces the document; a merge
   * keeps the fields it does not name.
   */
  function Apply(s: Store, w: Write): (r: Store)
    ensures r.Keys == s.Keys + {w.path}
    ensures forall p :: p in s && p != w.path ==> r[p] == s[p]
    ensures w.mode == Overwrite ==> r[w.path] == w.fields
    ensures w.mode == Merge && w.path in s ==> r[w.path].Keys == s[w.path].Keys + w.fields.Keys
    ensures w.mode == Merge && w.path !in s ==> r[w.path] == w.fields
    ensures w.mode == Merge ==> forall f :: f in w.fields ==> r[w.path][f] == w.fields[f]
    ensures w.mode == Merge && w.path in s ==>
              forall f :: f in s[w.path] && f !in w.fields ==> r[w.path][f] == s[w.path][f]
  {
    match w.mode
    case Overwrite => s[w.path := w.fields]
    case Merge => s[w.path := (if w.path in s then s[w.path] else map[]) + w.fields]
  }

  /** The store after a log: accepted writes take effect in order, rejected ones do not. */
  function Commit(s: Store, log: seq<Issued>): Store
    decreases |log|
  {
    if log == [] then s
    else
      var last := log[|log| - 1];
      var before := Commit(s, log[..|log| - 1]);
      if last.outcome == Succeeded then Apply(before, last.write) else before
  }

  /** The two stores hold the same document (or both none) at `p`. */
  ghost predicate SameAt(s: Store, t: Store, p: Path) {
    (p in s <==> p in t) && (p in s ==> s[p] == t[p])
  }

  /** A write's effect at its own path depends only on what was there. */
  lemma ApplyIsLocal(s: Store, t: Store, w: Write)
    requires SameAt(s, t, w.path)
    ensures Apply(s, w)[w.path] == Apply(t, w)[w.path]
  {
  }

  /** A path with no accepted write in the log keeps its document. */
  lemma {:induction false} CommitUntouched(s: Store, log: seq<Issued>, p: Path)
    requires forall i :: 0 <= i < |log| && log[i].write.path == p ==> log[i].outcome == Failed
    ensures SameAt(Commit(s, log), s, p)
    decreases |log|
  {
    if log != [] {
      var n := |log| - 1;
      assert forall i :: 0 <= i < n ==> log[..n][i] == log[i];
      CommitUntouched(s, log[..n], p);
    }
  }

  /**
   * When exactly one write in the log targets a path and the store accepted
   * it, the path ends up as that single write leaves it.
   */
  lemma {:induction false} CommitSoleWrite(s: Store, log: seq<Issued>, i: nat)
    requires i < |log| && log[i].outcome == Succeeded
    requires forall j :: 0 <= j < |log| && j != i ==> log[j].write.path != log[i].write.path
    ensures log[i].write.path in Commit(s, log)
    ensures Commit(s, log)[log[i].write.path] == Apply(s, log[i].write)[log[i].write.path]
    decreases |log|
  {
    var n := |log| - 1;
    var init := log[..n];
    var p := log[i].write.path;
    assert forall j :: 0 <= j < n ==> init[j] == log[j];
    if i == n {
      CommitUntouched(s, init, p);
      ApplyIsLocal(Commit(s, init), s, log[i].write);
    } else {
      CommitSoleWrite(s, init, i);
    }
  }

  /** `ws[i]` is the only write in `ws` to the path of `w`, and it is `w`. */
  ghost predicate SoleWriteAt(ws: seq<Write>, i: int, w: Write) {
    && 0 <= i < |ws| && ws[i] == w
    && forall j :: 0 <= j < |ws| && j != i ==> ws[j].path != w.path
  }

  /**
   * The document at a path written once in a batch: as that write leaves it
   * if the store accepted the write, as before if it rejected it; the other
   * verdicts do not matter.
   */
  lemma IssuedSoleWrite(s: Store, ws: seq<Write>, accepts: Write -> bool, i: nat)
    requires i < |ws| && SoleWriteAt(ws, i, ws[i])
    ensures var after := Commit(s, IssueAll(ws, accepts));
            && (accepts(ws[i]) ==> ws[i].path in after && after[ws[i].path] == Apply(s, ws[i])[ws[i].path])
            && (!accepts(ws[i]) ==> SameAt(after, s, ws[i].path))
  {
    var log := IssueAll(ws, accepts);
    if accepts(ws[i]) {
      CommitSoleWrite(s, log, i);
    } else {
      CommitUntouched(s, log, ws[i].path);
    }
  }
}
