/**
 * getSnapshotSSTableReaders: resolves every sstable a snapshot lists to a referenced
 * reader, preferring the table's live (canonical) reader for the same sstable id and
 * otherwise opening the snapshot's own copy, and releases everything it acquired when
 * an open fails. Readers are numbered; the reference counts of all readers form a pool.
 */
module SnapshotReaders {
  import opened Common
  import opened SnapshotFs

  type ReaderId = nat

  /** A listed snapshot sstable: its directory and its sstable id. */
  datatype Descriptor = Descriptor(dir: Path, id: nat)

  /** A canonical reader of the live table and the sstable id it reads. */
  datatype Reader = Reader(rid: ReaderId, sstableId: nat)

  /**
   * The reference counts of all readers, and the first id never yet handed out.
   * A reader whose count has fallen to 0 is released and cannot be referenced again.
   */
  datatype Pool = Pool(counts: map<ReaderId, nat>, next: ReaderId)

  /** What Refs.tryRef leaves: the pool, the Refs set (a sequence without repeats) and whether it succeeded. */
  datatype Attempt = Attempt(pool: Pool, held: seq<ReaderId>, ok: bool)

  /** One listing entry resolved: to the reader serving it, or to a failed open. */
  datatype StepResult = Served(pool: Pool, held: seq<ReaderId>, reader: ReaderId) | OpenFailed(pool: Pool, held: seq<ReaderId>)

  /** The whole resolution: the Refs returned with the reader serving each entry, or the pool after the rollback. */
  datatype Outcome = Acquired(pool: Pool, held: seq<ReaderId>, served: seq<ReaderId>) | Failed(pool: Pool)

  function Count(p: Pool, r: ReaderId): nat
  {
    if r in p.counts then p.counts[r] else 0
  }

  /** Every counted reader has been handed out, and every reader of the live table too. */
  predicate Ready(p: Pool, active: map<nat, ReaderId>)
  {
    (forall r <- p.counts :: r < p.next) && (forall id <- active :: active[id] < p.next)
  }

  /** The active map: each canonical reader under its sstable id, a later reader replacing an earlier one. */
  function Active(canonical: seq<Reader>): map<nat, ReaderId>
  {
    if canonical == [] then map[]
    else
      var c := canonical[|canonical| - 1];
      Active(canonical[..|canonical| - 1])[c.sstableId := c.rid]
  }

  /** An id is active exactly when a canonical reader has it, and it maps to the last such reader. */
  lemma {:induction false} ActiveIsLastReader(canonical: seq<Reader>, id: nat)
    ensures id in Active(canonical) <==> exists c <- canonical :: c.sstableId == id
    ensures id in Active(canonical) ==>
              exists i :: 0 <= i < |canonical| && canonical[i] == Reader(Active(canonical)[id], id)
                          && forall j :: i < j < |canonical| ==> canonical[j].sstableId != id
  {
    if canonical != [] {
      var init := canonical[..|canonical| - 1];
      var c := canonical[|canonical| - 1];
      ActiveIsLastReader(init, id);
      assert canonical == init + [c];
      if c.sstableId != id && id in Active(init) {
        var i :| 0 <= i < |init| && init[i] == Reader(Active(init)[id], id)
                 && forall j :: i < j < |init| ==> init[j].sstableId != id;
        assert canonical[i] == init[i];
      }
    }
  }

  /** Whether the entry's sstable has a live reader that can still be referenced. */
  predicate Live(p: Pool, active: map<nat, ReaderId>, d: Descriptor)
  {
    d.id in active && Count(p, active[d.id]) > 0
  }

  /**
   * Refs.tryRef: take a new reference on a reader that is not released. When the set
   * already holds the reader, the older reference is released, so the count stays.
   */
  function AfterTryRef(p: Pool, held: seq<ReaderId>, r: ReaderId): Attempt
  {
    if Count(p, r) == 0 then Attempt(p, held, false)
    else if r in held then Attempt(p, held, true)
    else Attempt(p.(counts := p.counts[r := Count(p, r) + 1]), held + [r], true)
  }

  /** SSTableReader.open: a fresh reader, counting its self-reference. */
  function AfterOpen(p: Pool): Pool
  {
    Pool(p.counts[p.next := 1], p.next + 1)
  }

  /** Ref.release: drop one reference. */
  function AfterRelease(p: Pool, r: ReaderId): Pool
  {
    if r in p.counts && p.counts[r] > 0 then p.(counts := p.counts[r := p.counts[r] - 1]) else p
  }

  /** Refs.release: drop the reference held on each reader of the set. */
  function AfterReleaseAll(p: Pool, held: seq<ReaderId>): Pool
    decreases |held|
  {
    if held == [] then p else AfterReleaseAll(AfterRelease(p, held[0]), held[1..])
  }

  /** Releasing a set of held references takes exactly one reference off each of its readers. */
  lemma {:induction false} ReleaseAllCounts(p: Pool, held: seq<ReaderId>)
    requires NoDuplicates(held)
    requires forall r <- held :: Count(p, r) >= 1
    ensures AfterReleaseAll(p, held).next == p.next
    ensures AfterReleaseAll(p, held).counts.Keys == p.counts.Keys
    ensures forall r :: Count(AfterReleaseAll(p, held), r) == Count(p, r) - (if r in held then 1 else 0)
    decreases |held|
  {
    if held != [] {
      var p1 := AfterRelease(p, held[0]);
      assert forall r <- held[1..] :: r in held && r != held[0];
      ReleaseAllCounts(p1, held[1..]);
      assert forall r :: r in held <==> r == held[0] || r in held[1..];
    }
  }

  /** One iteration of the resolver's loop. */
  function Step(p: Pool, held: seq<ReaderId>, active: map<nat, ReaderId>, d: Descriptor, fails: set<Descriptor>): StepResult
  {
    var a := if d.id in active then AfterTryRef(p, held, active[d.id]) else Attempt(p, held, false);
    if a.ok then Served(a.pool, a.held, active[d.id])
    else if d in fails then OpenFailed(a.pool, a.held)
    else
      var newReader := a.pool.next;
      var b := AfterTryRef(AfterOpen(a.pool), a.held, newReader);
      Served(AfterRelease(b.pool, newReader), b.held, newReader)
  }

  /** The loop from a given entry onward: `served` records which reader served each entry so far. */
  function ResolveFrom(p: Pool, held: seq<ReaderId>, served: seq<ReaderId>, active: map<nat, ReaderId>,
                       listing: seq<Descriptor>, fails: set<Descriptor>): Outcome
    decreases |listing|
  {
    if listing == [] then Acquired(p, held, served)
    else
      match Step(p, held, active, listing[0], fails)
      case OpenFailed(p1, h1) => Failed(AfterReleaseAll(p1, h1))
      case Served(p1, h1, r) => ResolveFrom(p1, h1, served + [r], active, listing[1..], fails)
  }

  /**
   * getSnapshotSSTableReaders over the table's canonical readers and the snapshot's
   * listing; `fails` holds the entries whose open throws.
   */
  function Resolve(p: Pool, canonical: seq<Reader>, listing: seq<Descriptor>, fails: set<Descriptor>): Outcome
  {
    ResolveFrom(p, [], [], Active(canonical), listing, fails)
  }

  /**
   * One entry: a live active reader gains one reference unless the set already holds it;
   * otherwise a fresh reader is opened whose only reference is the one in the set.
   */
  lemma StepEffect(p: Pool, held: seq<ReaderId>, active: map<nat, ReaderId>, d: Descriptor, fails: set<Descriptor>)
    requires Ready(p, active) && NoDuplicates(held)
    requires forall r <- held :: Count(p, r) >= 1
    ensures match Step(p, held, active, d, fails)
      case OpenFailed(p1, h1) => p1 == p && h1 == held && !Live(p, active, d) && d in fails
      case Served(p1, h1, r) =>
        && Ready(p1, active) && NoDuplicates(h1)
        && (forall x :: x in h1 <==> x in held || x == r)
        && (forall x :: Count(p1, x) == Count(p, x) + (if x == r && x !in held then 1 else 0))
        && (Live(p, active, d) ==> r == active[d.id] && p1.next == p.next)
        && (!Live(p, active, d) ==> r == p.next && p1.next == p.next + 1 && Count(p1, r) == 1)
  {
    if !Live(p, active, d) && d !in fails {
      assert p.next !in held;
    }
  }

  /** After a served entry, every other entry's sstable is live exactly when it was before. */
  lemma StepKeepsLiveness(p: Pool, held: seq<ReaderId>, active: map<nat, ReaderId>, d: Descriptor, fails: set<Descriptor>, e: Descriptor)
    requires Ready(p, active) && NoDuplicates(held)
    requires forall r <- held :: Count(p, r) >= 1
    requires Step(p, held, active, d, fails).Served?
    ensures Live(Step(p, held, active, d, fails).pool, active, e) <==> Live(p, active, e)
  {
    StepEffect(p, held, active, d, fails);
  }

  /**
   * The loop on success, from any state the resolver can be in: each reader newly put in
   * the set has gained exactly one reference, freshly opened readers have no other one,
   * and every entry is served by a reader in the set.
   */
  lemma {:induction false} ResolveFromCounts(p: Pool, held: seq<ReaderId>, served: seq<ReaderId>, active: map<nat, ReaderId>,
                                             listing: seq<Descriptor>, fails: set<Descriptor>)
    requires Ready(p, active) && NoDuplicates(held)
    requires forall r <- held :: Count(p, r) >= 1
    requires forall r :: r in held <==> r in served
    requires ResolveFrom(p, held, served, active, listing, fails).Acquired?
    decreases |listing|
    ensures var o := ResolveFrom(p, held, served, active, listing, fails);
            && Ready(o.pool, active) && NoDuplicates(o.held) && o.pool.next >= p.next
            && (forall x <- held :: x in o.held)
            && (forall x :: x in o.held <==> x in o.served)
            && (forall x :: x in o.held && x >= p.next ==> Count(o.pool, x) == 1)
            && (forall x :: Count(o.pool, x) == Count(p, x) + (if x in o.held && x !in held then 1 else 0))
            && |o.served| == |served| + |listing|
  {
    if listing != [] {
      StepEffect(p, held, active, listing[0], fails);
      var st := Step(p, held, active, listing[0], fails);
      assert forall x <- st.held :: Count(st.pool, x) >= 1;
      ResolveFromCounts(st.pool, st.held, served + [st.reader], active, listing[1..], fails);
      assert ResolveFrom(p, held, served, active, listing, fails)
          == ResolveFrom(st.pool, st.held, served + [st.reader], active, listing[1..], fails);
    }
  }

  /** The loop on failure: each reader in the set has lost the reference the set held. */
  lemma {:induction false} ResolveFromFailure(p: Pool, held: seq<ReaderId>, served: seq<ReaderId>, active: map<nat, ReaderId>,
                                              listing: seq<Descriptor>, fails: set<Descriptor>)
    requires Ready(p, active) && NoDuplicates(held)
    requires forall r <- held :: Count(p, r) >= 1
    requires ResolveFrom(p, held, served, active, listing, fails).Failed?
    decreases |listing|
    ensures forall x :: Count(ResolveFrom(p, held, served, active, listing, fails).pool, x) == Count(p, x) - (if x in held then 1 else 0)
  {
    StepEffect(p, held, active, listing[0], fails);
    var st := Step(p, held, active, listing[0], fails);
    if st.OpenFailed? {
      ReleaseAllCounts(st.pool, st.held);
    } else {
      assert forall x <- st.held :: Count(st.pool, x) >= 1;
      ResolveFromFailure(st.pool, st.held, served + [st.reader], active, listing[1..], fails);
    }
  }

  /** The loop on success extends the record of served readers by one per entry, and only hands out new ids. */
  lemma {:induction false} ResolveFromExtends(p: Pool, held: seq<ReaderId>, served: seq<ReaderId>, active: map<nat, ReaderId>,
                                              listing: seq<Descriptor>, fails: set<Descriptor>)
    requires Ready(p, active) && NoDuplicates(held)
    requires forall r <- held :: Count(p, r) >= 1
    requires ResolveFrom(p, held, served, active, listing, fails).Acquired?
    decreases |listing|
    ensures var o := ResolveFrom(p, held, served, active, listing, fails);
            p.next <= o.pool.next && |o.served| == |served| + |listing| && o.served[..|served|] == served
  {
    if listing != [] {
      StepEffect(p, held, active, listing[0], fails);
      var st := Step(p, held, active, listing[0], fails);
      assert forall x <- st.held :: Count(st.pool, x) >= 1;
      ResolveFromExtends(st.pool, st.held, served + [st.reader], active, listing[1..], fails);
      var o := ResolveFrom(st.pool, st.held, served + [st.reader], active, listing[1..], fails);
      assert ResolveFrom(p, held, served, active, listing, fails) == o;
      assert o.served[..|served|] == o.served[..|served| + 1][..|served|];
    }
  }

  /** The loop on success: entry `i` is served by its live active reader when there is one, else by a newly opened reader. */
  lemma {:induction false} ResolveFromServes(p: Pool, held: seq<ReaderId>, served: seq<ReaderId>, active: map<nat, ReaderId>,
                                             listing: seq<Descriptor>, fails: set<Descriptor>, i: nat)
    requires Ready(p, active) && NoDuplicates(held)
    requires forall r <- held :: Count(p, r) >= 1
    requires ResolveFrom(p, held, served, active, listing, fails).Acquired?
    requires i < |listing|
    decreases |listing|
    ensures var o := ResolveFrom(p, held, served, active, listing, fails);
            && |served| + i < |o.served|
            && if Live(p, active, listing[i]) then o.served[|served| + i] == active[listing[i].id]
               else p.next <= o.served[|served| + i] < o.pool.next
  {
    StepEffect(p, held, active, listing[0], fails);
    var st := Step(p, held, active, listing[0], fails);
    assert forall x <- st.held :: Count(st.pool, x) >= 1;
    var o := ResolveFrom(st.pool, st.held, served + [st.reader], active, listing[1..], fails);
    assert ResolveFrom(p, held, served, active, listing, fails) == o;
    ResolveFromExtends(st.pool, st.held, served + [st.reader], active, listing[1..], fails);
    if i == 0 {
      assert o.served[|served|] == o.served[..|served| + 1][|served|];
    } else {
      ResolveFromServes(st.pool, st.held, served + [st.reader], active, listing[1..], fails, i - 1);
      assert listing[i] == listing[1..][i - 1];
      StepKeepsLiveness(p, held, active, listing[0], fails, listing[i]);
    }
  }

  /**
   * On success the returned set holds one reference on each reader it names and nothing
   * else changed; it serves every listing entry, with the live active reader whenever
   * there is one, and otherwise with a freshly opened reader whose only reference is the
   * one in the set.
   */
  lemma ResolveSuccess(p: Pool, canonical: seq<Reader>, listing: seq<Descriptor>, fails: set<Descriptor>)
    requires forall r <- p.counts :: r < p.next
    requires forall c <- canonical :: c.rid < p.next
    ensures match Resolve(p, canonical, listing, fails)
      case Failed(_) => true
      case Acquired(p1, held, served) =>
        && NoDuplicates(held) && |served| == |listing|
        && (forall x :: x in held <==> x in served)
        && (forall x :: Count(p1, x) == Count(p, x) + (if x in held then 1 else 0))
        && (forall x :: x in held && x >= p.next ==> Count(p1, x) == 1)
        && (forall i :: 0 <= i < |listing| ==>
              if Live(p, Active(canonical), listing[i]) then served[i] == Active(canonical)[listing[i].id]
              else served[i] >= p.next)
  {
    ActiveIsReady(p, canonical);
    if Resolve(p, canonical, listing, fails).Acquired? {
      ResolveFromCounts(p, [], [], Active(canonical), listing, fails);
      forall i | 0 <= i < |listing|
        ensures var o := Resolve(p, canonical, listing, fails);
                if Live(p, Active(canonical), listing[i]) then o.served[i] == Active(canonical)[listing[i].id]
                else o.served[i] >= p.next
      {
        ResolveFromServes(p, [], [], Active(canonical), listing, fails, i);
      }
    }
  }

  /** If an open throws, every reference acquired so far is released: all counts are back where they started. */
  lemma ResolveFailureRollsBack(p: Pool, canonical: seq<Reader>, listing: seq<Descriptor>, fails: set<Descriptor>)
    requires forall r <- p.counts :: r < p.next
    requires forall c <- canonical :: c.rid < p.next
    requires Resolve(p, canonical, listing, fails).Failed?
    ensures forall x :: Count(Resolve(p, canonical, listing, fails).pool, x) == Count(p, x)
  {
    ActiveIsReady(p, canonical);
    ResolveFromFailure(p, [], [], Active(canonical), listing, fails);
  }

  /** Releasing the returned set restores every count: the set owns exactly the references the call took. */
  lemma ReleasingResultRestores(p: Pool, canonical: seq<Reader>, listing: seq<Descriptor>, fails: set<Descriptor>)
    requires forall r <- p.counts :: r < p.next
    requires forall c <- canonical :: c.rid < p.next
    requires Resolve(p, canonical, listing, fails).Acquired?
    ensures var o := Resolve(p, canonical, listing, fails);
            forall x :: Count(AfterReleaseAll(o.pool, o.held), x) == Count(p, x)
  {
    ResolveSuccess(p, canonical, listing, fails);
    var o := Resolve(p, canonical, listing, fails);
    ReleaseAllCounts(o.pool, o.held);
  }

  lemma ActiveIsReady(p: Pool, canonical: seq<Reader>)
    requires forall r <- p.counts :: r < p.next
    requires forall c <- canonical :: c.rid < p.next
    ensures Ready(p, Active(canonical))
  {
    forall id | id in Active(canonical)
      ensures Active(canonical)[id] < p.next
    {
      ActiveIsLastReader(canonical, id);
    }
  }

  // ---------------------------------------------------------------------------
  // The imperative resolver
  // ---------------------------------------------------------------------------

  /** The reference counts of all readers. */
  class ReaderPool {
    var counts: map<ReaderId, nat>
    var next: ReaderId

    ghost function State(): Pool
      reads this
    {
      Pool(counts, next)
    }

    constructor (counts: map<ReaderId, nat>, next: ReaderId)
      ensures State() == Pool(counts, next)
    {
      this.counts := counts;
      this.next := next;
    }

    /** Refs.tryRef on `r`, returning the updated set. */
    method TryRef(held: seq<ReaderId>, r: ReaderId) returns (held': seq<ReaderId>, ok: bool)
      modifies this`counts
      ensures Attempt(State(), held', ok) == AfterTryRef(old(State()), held, r)
    {
      var count := if r in counts then counts[r] else 0;
      if count == 0 {
        return held, false;
      }
      if r in held {
        return held, true;
      }
      counts := counts[r := count + 1];
      return held + [r], true;
    }

    /** SSTableReader.open. */
    method Open() returns (r: ReaderId)
      modifies this
      ensures r == old(next)
      ensures State() == AfterOpen(old(State()))
    {
      r := next;
      counts := counts[next := 1];
      next := next + 1;
    }

    /** Ref.release. */
    method Release(r: ReaderId)
      modifies this`counts
      ensures State() == AfterRelease(old(State()), r)
    {
      if r in counts && counts[r] > 0 {
        counts := counts[r := counts[r] - 1];
      }
    }

    /** Refs.release. */
    method ReleaseAll(held: seq<ReaderId>)
      modifies this`counts
      ensures State() == AfterReleaseAll(old(State()), held)
    {
      var i := 0;
      while i < |held|
        invariant 0 <= i <= |held|
        invariant AfterReleaseAll(old(State()), held) == AfterReleaseAll(State(), held[i..])
      {
        assert held[i..][1..] == held[i + 1..];
        Release(held[i]);
        i := i + 1;
      }
    }
  }

  /** The loop that fills the active map. */
  method ActiveReaders(canonical: seq<Reader>) returns (active: map<nat, ReaderId>)
    ensures active == Active(canonical)
  {
    active := map[];
    var i := 0;
    while i < |canonical|
      invariant 0 <= i <= |canonical|
      invariant active == Active(canonical[..i])
    {
      assert canonical[..i + 1][..i] == canonical[..i];
      active := active[canonical[i].sstableId := canonical[i].rid];
      i := i + 1;
    }
    assert canonical[..|canonical|] == canonical;
  }

  /**
   * getSnapshotSSTableReaders. `refs` is None when an open threw (after the rollback);
   * `served` names the reader that serves each listing entry.
   */
  method GetSnapshotSSTableReaders(pool: ReaderPool, canonical: seq<Reader>, listing: seq<Descriptor>, fails: set<Descriptor>)
    returns (refs: Option<seq<ReaderId>>, ghost served: seq<ReaderId>)
    modifies pool
    ensures var o := Resolve(old(pool.State()), canonical, listing, fails);
            && pool.State() == o.pool
            && (o.Acquired? <==> refs.Some?)
            && (o.Acquired? ==> refs.value == o.held && served == o.served)
  {
    var active := ActiveReaders(canonical);
    var held: seq<ReaderId> := [];
    served := [];
    var i := 0;
    while i < |listing|
      invariant 0 <= i <= |listing|
      invariant Resolve(old(pool.State()), canonical, listing, fails)
             == ResolveFrom(pool.State(), held, served, active, listing[i..], fails)
    {
      var d := listing[i];
      assert listing[i..][0] == d && listing[i..][1..] == listing[i + 1..];
      var ok := false;
      if d.id in active {
        held, ok := pool.TryRef(held, active[d.id]);
      }
      if ok {
        served := served + [active[d.id]];
      } else {
        if d in fails {
          pool.ReleaseAll(held);
          return None, served;
        }
        var sstable := pool.Open();
        var ignored;
        held, ignored := pool.TryRef(held, sstable);
        pool.Release(sstable);
        served := served + [sstable];
      }
      i := i + 1;
    }
    refs := Some(held);
  }
}
