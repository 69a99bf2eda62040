/** `pkg/mirror`: a replica that accepts an entry only onto the chain it has verified so far. */
module Mirroring {
  import opened Encoding
  import opened Hashing
  import opened Options
  import opened LogEntry
  import opened Storage
  import Attest

  /** What the upstream answers to a request for the entries from one index up to another. */
  type Pages = (nat, nat) -> Option<seq<Entry>>

  /** The end of the page that starts at `from`. */
  function PageEnd(from: nat, size: nat, chunk: nat): nat { if from + chunk > size then size else from + chunk }

  /** All pages up to `size`, or nothing if one of them cannot be had. */
  ghost function Fetched(fetch: Pages, from: nat, size: nat, chunk: nat): Option<seq<Entry>>
    requires chunk > 0
    decreases size - from
  {
    if from >= size then Some([])
    else
      var page := fetch(from, PageEnd(from, size, chunk));
      if page.None? then None
      else
        var rest := Fetched(fetch, from + chunk, size, chunk);
        if rest.None? then None else Some(page.value + rest.value)
  }

  /** The entries verify as the continuation of the log, fit, and can all be stored. */
  ghost predicate Acceptable(sha: Hasher, log: seq<Entry>, entries: seq<Entry>, failing: set<nat>)
  {
    && VerifiedChain(sha, log + entries) && |log| + |entries| <= TWO_TO_63
    && forall i :: |log| <= i < |log| + |entries| ==> i !in failing
  }

  lemma AcceptableSplits(sha: Hasher, log: seq<Entry>, a: seq<Entry>, b: seq<Entry>, failing: set<nat>)
    ensures Acceptable(sha, log, a + b, failing) <==>
              Acceptable(sha, log, a, failing) && Acceptable(sha, log + a, b, failing)
  {
    hide VerifiedChain;
    assert log + (a + b) == log + a + b;
    if VerifiedChain(sha, log + a + b) {
      ChainPrefix(sha, log + a + b, |log + a|);
      assert (log + a + b)[..|log + a|] == log + a;
    }
  }

  lemma AcceptableOne(sha: Hasher, log: seq<Entry>, e: Entry, failing: set<nat>)
    requires VerifiedChain(sha, log) && |log| < TWO_TO_63
    ensures Acceptable(sha, log, [e], failing) <==>
              |log| !in failing && SelfVerifies(sha, e) && Follows(Before(log, |log|), e)
  {
    hide VerifiedChain, SelfVerifies, Follows;
    ChainExtends(sha, log, e);
  }

  class Mirror {
    const sha: Hasher
    const store: Store
    const chunkSize: nat
    var prev: Option<Entry>
    var lastSize: nat
    ghost var log: seq<Entry>

    /** The local store is a verified chain from index 0, and the cursor stands at its end. */
    ghost predicate Valid()
      reads this, store
    {
      && store.Holds(sha, log) && |log| <= TWO_TO_63 && prev == Before(log, |log|) && lastSize == |log| && chunkSize > 0
    }

    constructor (sha: Hasher, store: Store, chunkSize: nat, prev: Option<Entry>, lastSize: nat, ghost log: seq<Entry>)
      ensures this.sha == sha && this.store == store && this.chunkSize == chunkSize
      ensures this.prev == prev && this.lastSize == lastSize && this.log == log
    {
      this.sha, this.store, this.chunkSize := sha, store, chunkSize;
      this.prev, this.lastSize, this.log := prev, lastSize, log;
    }

    /** `acceptEntry`: takes exactly a self-verifying entry that follows the last one, if it can be
        stored. */
    method AcceptEntry(e: Entry, works: bool) returns (ok: bool)
      requires Valid() && |log| < TWO_TO_63
      modifies this, store, store.leafDb
      ensures Valid()
      ensures ok <==> works && SelfVerifies(sha, e) && Follows(old(Before(log, |log|)), e)
      ensures log == if ok then old(log) + [e] else old(log)
    {
      hide VerifiedChain, EntryBytes, Attest.Verifies, Tabulates;
      if !SelfVerifies(sha, e) || !Follows(prev, e) {
        return false;
      }
      ok := store.AppendVerified(sha, e, works, log);
      if !ok {
        return;
      }
      prev := Some(e);
      lastSize := lastSize + 1;
      log := log + [e];
    }

    /** One page of `syncOnce`: taken as a whole exactly when it verifies and can be stored; otherwise
        up to the first entry that does not. */
    method AcceptPage(entries: seq<Entry>, failing: set<nat>) returns (ok: bool)
      requires Valid() && |log| + |entries| <= TWO_TO_63
      modifies this, store, store.leafDb
      ensures Valid() && old(log) <= log <= old(log) + entries
      ensures ok ==> log == old(log) + entries
      ensures ok <==> Acceptable(sha, old(log), entries, failing)
    {
      hide VerifiedChain, SelfVerifies, Follows, Tabulates, HeadOf, Acceptable;
      AcceptableNone(sha, log, failing);
      for i := 0 to |entries|
        invariant Valid() && log == old(log) + entries[..i] && Acceptable(sha, old(log), entries[..i], failing)
      {
        AcceptableOne(sha, log, entries[i], failing);
        AcceptableSplits(sha, old(log), entries[..i], [entries[i]], failing);
        AcceptableSplits(sha, old(log), entries[..i + 1], entries[i + 1..], failing);
        assert entries[..i + 1] == entries[..i] + [entries[i]] && entries == entries[..i + 1] + entries[i + 1..];
        var accepted := AcceptEntry(entries[i], lastSize !in failing);
        if !accepted {
          return false;
        }
      }
      assert entries[..|entries|] == entries;
      return true;
    }

    /** `syncOnce`, whatever the upstream answers. It succeeds exactly when there is nothing to fetch or
        every page comes, verifies and can be stored, and then the log has grown by those pages. */
    method SyncOnce(upstreamSize: Option<nat>, fetch: Pages, failing: set<nat>) returns (ok: bool)
      requires Valid()
      modifies this, store, store.leafDb
      ensures Valid() && old(log) <= log
      ensures upstreamSize.None? ==> !ok && log == old(log)
      ensures upstreamSize.Some? && upstreamSize.value <= |old(log)| ==> ok && log == old(log)
      ensures upstreamSize.Some? && upstreamSize.value > |old(log)| ==>
                var pages := Fetched(fetch, |old(log)|, upstreamSize.value, chunkSize);
                && (ok <==> pages.Some? && Acceptable(sha, old(log), pages.value, failing))
                && (ok ==> log == old(log) + pages.value)
    {
      hide VerifiedChain, SelfVerifies, Follows, Tabulates, HeadOf, Acceptable;
      if upstreamSize.None? {
        return false;
      }
      var size := upstreamSize.value;
      if size <= lastSize {
        return true;
      }
      var from := lastSize;
      ghost var taken: seq<Entry> := [];
      AcceptableNone(sha, log, failing);
      while from < size
        invariant Valid() && log == old(log) + taken && Acceptable(sha, old(log), taken, failing)
        invariant Resumes(Fetched(fetch, |old(log)|, size, chunkSize), taken, Fetched(fetch, from, size, chunkSize))
        decreases size - from
      {
        var page := fetch(from, PageEnd(from, size, chunkSize));
        if page.None? {
          return false;
        }
        ghost var rest := Fetched(fetch, from + chunkSize, size, chunkSize);
        if rest.Some? {
          assert taken + (page.value + rest.value) == taken + page.value + rest.value;
          AcceptableSplits(sha, old(log), taken + page.value, rest.value, failing);
        }
        AcceptableSplits(sha, old(log), taken, page.value, failing);
        if |page.value| > TWO_TO_63 - lastSize {
          TooMany(sha, log, page.value, failing);
          return false;
        }
        var accepted := AcceptPage(page.value, failing);
        if !accepted {
          return false;
        }
        taken := taken + page.value;
        from := from + chunkSize;
      }
      assert taken + [] == taken;
      return true;
    }
  }

  /** What was taken so far and what is still to come make up all the pages. */
  ghost predicate Resumes(all: Option<seq<Entry>>, taken: seq<Entry>, rest: Option<seq<Entry>>)
  {
    (all.Some? <==> rest.Some?) && (all.Some? ==> all.value == taken + rest.value)
  }

  lemma AcceptableNone(sha: Hasher, log: seq<Entry>, failing: set<nat>)
    requires VerifiedChain(sha, log) && |log| <= TWO_TO_63
    ensures Acceptable(sha, log, [], failing)
  {
    hide VerifiedChain;
    assert log + [] == log;
  }

  lemma TooMany(sha: Hasher, log: seq<Entry>, entries: seq<Entry>, failing: set<nat>)
    requires |log| + |entries| > TWO_TO_63
    ensures !Acceptable(sha, log, entries, failing)
  {
  }

  /** `New`: picks up at the stored tail, whatever the store holds, unless there is no upstream or the size
      or the tail cannot be read. The mirror then works exactly if the store holds a verified log. */
  method OpenMirror(sha: Hasher, store: Store, upstream: Bytes, chunkSize: nat, sizeRead: bool, tailRead: bool,
                    ghost log: seq<Entry>) returns (m: Option<Mirror>)
    ensures m.Some? <==> upstream != [] && sizeRead
                         && (store.size == 0 || (tailRead && store.size - 1 in store.entries))
    ensures m.Some? ==> fresh(m.value) && m.value.log == log && m.value.store == store && m.value.sha == sha
                        && m.value.chunkSize == (if chunkSize == 0 then 256 else chunkSize)
    ensures m.Some? ==> m.value.lastSize == store.size
                        && m.value.prev == if store.size == 0 then None else Some(store.entries[store.size - 1])
    ensures m.Some? ==> (m.value.Valid() <==> store.Holds(sha, log) && |log| <= TWO_TO_63)
    ensures store.Holds(sha, log) ==> (m.Some? <==> upstream != [] && sizeRead && (log == [] || tailRead))
  {
    hide VerifiedChain;
    if upstream == [] || !sizeRead {
      return None;
    }
    var size, prev := store.size, None;
    if size > 0 {
      prev := store.GetEntry(size - 1, tailRead, log);
      if prev.None? {
        return None;
      }
    }
    var mirror := new Mirror(sha, store, if chunkSize == 0 then 256 else chunkSize, prev, size, log);
    return Some(mirror);
  }

  // ---- An honest upstream ----

  /** The upstream serves exactly the entries asked for out of one log. */
  ghost predicate Honest(fetch: Pages, upstream: seq<Entry>)
  {
    forall from, until :: 0 <= from <= until <= |upstream| ==> fetch(from, until) == Some(upstream[from..until])
  }

  lemma {:induction false} HonestFetched(fetch: Pages, upstream: seq<Entry>, from: nat, size: nat, chunk: nat)
    requires Honest(fetch, upstream) && chunk > 0 && from <= size <= |upstream|
    ensures Fetched(fetch, from, size, chunk) == Some(upstream[from..size])
    decreases size - from
  {
    var end := PageEnd(from, size, chunk);
    if from < size {
      assert fetch(from, end) == Some(upstream[from..end]);
      if end < size {
        HonestFetched(fetch, upstream, end, size, chunk);
      }
      assert upstream[from..end] + upstream[end..size] == upstream[from..size];
    }
  }

  /** What a mirror of an honest upstream fetches can be accepted, and gives it the upstream's log. */
  lemma HonestSync(sha: Hasher, fetch: Pages, upstream: seq<Entry>, log: seq<Entry>, size: nat, chunk: nat)
    requires Honest(fetch, upstream) && VerifiedChain(sha, upstream) && |upstream| <= TWO_TO_63 && chunk > 0
    requires log <= upstream && |log| <= size <= |upstream|
    ensures var pages := Fetched(fetch, |log|, size, chunk);
            pages.Some? && Acceptable(sha, log, pages.value, {}) && log + pages.value == upstream[..size]
  {
    hide VerifiedChain;
    HonestFetched(fetch, upstream, |log|, size, chunk);
    assert log == upstream[..|log|];
    assert upstream[..|log|] + upstream[|log|..size] == upstream[..size];
    ChainPrefix(sha, upstream, size);
  }

  /** A mirror that shares the operator's head holds the operator's log, entry by entry. */
  lemma SameHeadSameLog(sha: Hasher, mirror: Mirror, operator: Store, log: seq<Entry>, messages: set<Bytes>)
    requires mirror.Valid() && mirror.sha == sha && operator.Holds(sha, log) && |log| <= TWO_TO_63
    requires mirror.store.head.Some? && mirror.store.head == operator.head
    requires CollisionFree(sha, messages) && AllCovered(sha, mirror.log, messages) && AllCovered(sha, log, messages)
    ensures SameLog(mirror.log, log) && Leaves(mirror.log) == Leaves(log) && mirror.store.size == operator.size
  {
    hide VerifiedChain, AllCovered, CollisionFree, Tabulates, SameEntry;
    HeadCommits(sha, mirror.log, log, messages);
    SameLogSameLeaves(mirror.log, log);
  }
}
