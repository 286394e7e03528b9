/**
The eviction loop, scan by scan. Go visits a map in no fixed order, so what one
call may keep is a set of outcomes; this module says exactly which.
*/
module Retention {
  import opened EnvelopeValues

  // ---------- one scan ----------

  /** The scan's two variables: the best ref so far, where "" also means none yet, and its timestamp. */
  datatype Best = Best(ref: string, ts: int)

  /** Where one scan stands after visiting `order`. */
  function Scan(q: Queue, order: seq<string>): (best: Best)
    requires forall r | r in order :: r in q
    ensures order != [] ==> best.ref in order
  {
    if order == [] then Best("", 0) else Better(q, Scan(q, order[..|order| - 1]), order[|order| - 1])
  }

  function Better(q: Queue, best: Best, ref: string): Best
    requires ref in q
  {
    if best.ref == "" || Timestamp(q[ref]) < best.ts then Best(ref, Timestamp(q[ref])) else best
  }

  function Visited(order: seq<string>): (refs: set<string>)
    ensures forall r :: r in refs <==> r in order
  {
    if order == [] then {}
    else
      assert order == order[..|order| - 1] + [order[|order| - 1]];
      Visited(order[..|order| - 1]) + {order[|order| - 1]}
  }

  /** Every key once, in any order. */
  ghost predicate IsOrder(q: Queue, order: seq<string>) {
    && (forall r :: r in order <==> r in q)
    && (forall i, j | 0 <= i < j < |order| :: order[i] != order[j])
  }

  predicate OldestOf(q: Queue, refs: set<string>, ref: string)
    requires ref in q && refs <= q.Keys
  {
    forall r | r in refs :: Timestamp(q[ref]) <= Timestamp(q[r])
  }

  /** The record under the empty key is there and strictly older than all others. */
  predicate EmptyKeyLeads(q: Queue, refs: set<string>)
    requires refs <= q.Keys
  {
    "" in refs && forall r | r in refs && r != "" :: Timestamp(q[""]) < Timestamp(q[r])
  }

  /** What a scan knows after visiting `refs`. */
  predicate Found(q: Queue, refs: set<string>, best: Best)
    requires refs <= q.Keys
  {
    && best.ref in refs && best.ts == Timestamp(q[best.ref])
    && ((best.ref != "" && OldestOf(q, refs, best.ref)) || EmptyKeyLeads(q, refs))
  }

  lemma FoundMore(q: Queue, refs: set<string>, best: Best, ref: string)
    requires refs <= q.Keys && Found(q, refs, best) && ref in q && ref !in refs
    ensures Found(q, refs + {ref}, Better(q, best, ref))
  {}

  /**
  A scan finds the oldest record, unless the one under the empty key is strictly
  the oldest: once found, it reads as "none yet" and the next record displaces it.
  */
  lemma {:induction false} ScanFinds(q: Queue, order: seq<string>)
    requires order != [] && (forall r | r in order :: r in q)
    requires forall i, j | 0 <= i < j < |order| :: order[i] != order[j]
    ensures Found(q, Visited(order), Scan(q, order))
  {
    var before, ref := order[..|order| - 1], order[|order| - 1];
    if before == [] {
      assert Visited(order) == {ref} && Scan(q, order) == Best(ref, Timestamp(q[ref]));
    } else {
      assert forall r | r in before :: r in order;
      assert ref !in before;
      ScanFinds(q, before);
      FoundMore(q, Visited(before), Scan(q, before), ref);
    }
  }

  // ---------- the whole loop ----------

  /**
  `kept` is what the loop may leave of `q`: one scan after another, each in some
  order of its own, until the limit holds.
  */
  ghost predicate MayKeep(q: Queue, limit: nat, kept: set<string>)
    decreases q.Keys
  {
    if limit == 0 || |q| <= limit then kept == q.Keys
    else exists order :: IsOrder(q, order) && MayKeep(Without(q, order), limit, kept)
  }

  /** What is left after the record that a scan in this order finds is deleted. */
  ghost function Without(q: Queue, order: seq<string>): (left: Queue)
    requires q != map[] && IsOrder(q, order)
    ensures left.Keys < q.Keys
  {
    assert order != [] by {
      var r :| r in q;
      assert r in order;
    }
    q - {Scan(q, order).ref}
  }

  /** Some visiting order makes a scan find this record. */
  ghost predicate CanFind(q: Queue, ref: string) {
    exists order :: IsOrder(q, order) && Scan(q, order).ref == ref
  }

  /** What the loop may leave after one more scan, it may leave now. */
  lemma OneScan(q: Queue, limit: nat, ref: string)
    requires limit > 0 && |q| > limit && CanFind(q, ref)
    ensures ref in q
    ensures forall kept | MayKeep(q - {ref}, limit, kept) :: MayKeep(q, limit, kept)
    ensures |q - {ref}| == |q| - 1
  {
    var order :| IsOrder(q, order) && Scan(q, order).ref == ref;
    VictimIsOldest(q, order);
    var left := Without(q, order);
    assert left == q - {ref};
    assert left.Keys == q.Keys - {ref} && |left| == |left.Keys| && |q| == |q.Keys|;
  }

  lemma RetainLess(q: Queue, kept: set<string>, ref: string)
    ensures Retain(q, kept) - {ref} == Retain(q, kept - {ref})
  {}

  // ---------- exactly which records may stay ----------

  /** The other records that are no newer than the one under the empty key. */
  function NoNewerThanEmpty(q: Queue): set<string> {
    set r | r in q && "" in q && r != "" && NotNewer(q, r, "")
  }

  /** Nobody evicted is newer than anybody kept. */
  ghost predicate OldestFirst(q: Queue, kept: set<string>) {
    forall e, k | e in q && e !in kept && k in q && k in kept :: NotNewer(q, e, k)
  }

  /**
  Either the oldest went and the empty key stayed, or everything no newer than
  the empty key's record went, and then nothing can be said about the rest.
  */
  ghost predicate Spares(q: Queue, kept: set<string>) {
    || (OldestFirst(q, kept) && ("" in q ==> "" in kept))
    || ("" in q && kept !! NoNewerThanEmpty(q))
  }

  lemma VictimIsOldest(q: Queue, order: seq<string>)
    requires q != map[] && IsOrder(q, order)
    ensures var ref := Scan(q, order).ref;
      ref in q && ((ref != "" && forall r | r in q :: NotNewer(q, ref, r)) || ("" in q && NoNewerThanEmpty(q) == {}))
  {
    var r :| r in q;
    assert r in order;
    ScanFinds(q, order);
    assert Visited(order) == q.Keys;
  }

  /** Deleting the record that a scan found keeps the description true of the larger queue. */
  lemma SparedBefore(q: Queue, ref: string, kept: set<string>)
    requires ref in q && ref !in kept && Spares(q - {ref}, kept)
    requires (ref != "" && forall r | r in q :: NotNewer(q, ref, r)) || ("" in q && NoNewerThanEmpty(q) == {})
    ensures Spares(q, kept)
  {
    var left := q - {ref};
    if "" in q && kept !! NoNewerThanEmpty(left) {
      assert NoNewerThanEmpty(q) <= NoNewerThanEmpty(left) + {ref} || ref == "";
    }
    if OldestFirst(left, kept) {
      forall e, k | e in q && e !in kept && k in q && k in kept && ref != ""
        ensures NotNewer(q, e, k) || NoNewerThanEmpty(q) == {}
      {
        assert e != ref ==> NotNewer(left, e, k);
      }
    }
  }

  lemma ExcessBefore(q: Queue, ref: string, limit: nat, kept: set<string>)
    requires ref in q && limit > 0 && |q| > limit && IsExcessDropped(q - {ref}, limit, kept)
    ensures IsExcessDropped(q, limit, kept) && ref !in kept
  {
    var left := q - {ref};
    assert left.Keys == q.Keys - {ref} && |left| == |left.Keys| && |q| == |q.Keys|;
  }

  lemma {:induction false} KeptIsSpared(q: Queue, limit: nat, kept: set<string>)
    requires MayKeep(q, limit, kept)
    ensures IsExcessDropped(q, limit, kept) && Spares(q, kept)
    decreases q.Keys
  {
    if limit > 0 && |q| > limit {
      var order :| IsOrder(q, order) && MayKeep(Without(q, order), limit, kept);
      var ref := Scan(q, order).ref;
      VictimIsOldest(q, order);
      KeptIsSpared(q - {ref}, limit, kept);
      ExcessBefore(q, ref, limit, kept);
      SparedBefore(q, ref, kept);
    }
  }

  /** Some enumeration of a finite set. */
  lemma {:induction false} Enumerate(refs: set<string>) returns (order: seq<string>)
    ensures forall r :: r in order <==> r in refs
    ensures forall i, j | 0 <= i < j < |order| :: order[i] != order[j]
    decreases refs
  {
    if refs == {} {
      order := [];
    } else {
      var r :| r in refs;
      var rest := Enumerate(refs - {r});
      order := rest + [r];
    }
  }

  /** A scan that meets an oldest record first finds it. */
  lemma {:induction false} FirstOldestStays(q: Queue, order: seq<string>)
    requires order != [] && (forall r | r in order :: r in q)
    requires order[0] != "" && forall r | r in order :: NotNewer(q, order[0], r)
    ensures Scan(q, order) == Best(order[0], Timestamp(q[order[0]]))
    decreases |order|
  {
    if |order| > 1 {
      FirstOldestStays(q, order[..|order| - 1]);
    }
  }

  lemma OldestCanGo(q: Queue, ref: string) returns (order: seq<string>)
    requires ref in q && ref != "" && forall r | r in q :: NotNewer(q, ref, r)
    ensures IsOrder(q, order) && Scan(q, order).ref == ref
  {
    var rest := Enumerate(q.Keys - {ref});
    order := [ref] + rest;
    FirstOldestStays(q, order);
  }

  /** When the empty key's record is strictly the oldest, a scan can find whichever record it visits last. */
  lemma AnyCanGo(q: Queue, ref: string) returns (order: seq<string>)
    requires ref in q && "" in q && NoNewerThanEmpty(q) == {}
    ensures IsOrder(q, order) && Scan(q, order).ref == ref
  {
    var rest := Enumerate(q.Keys - {"", ref});
    var upto := rest + [""];
    assert upto[..|rest|] == rest;
    if rest != [] {
      ScanFinds(q, rest);
      assert Scan(q, rest).ref !in NoNewerThanEmpty(q);
    }
    assert Scan(q, upto).ref == "";
    if ref == "" {
      order := upto;
    } else {
      order := upto + [ref];
      assert order[..|upto|] == upto;
    }
  }

  /** Some record of a non-empty set is at most as new as every other. */
  lemma {:induction false} OldestExists(q: Queue, refs: set<string>) returns (oldest: string)
    requires refs != {} && refs <= q.Keys
    ensures oldest in refs && OldestOf(q, refs, oldest)
    decreases |refs|
  {
    var some :| some in refs;
    if refs == {some} {
      oldest := some;
    } else {
      var rest := refs - {some};
      assert refs == rest + {some};
      oldest := OldestExists(q, rest);
      if Timestamp(q[some]) < Timestamp(q[oldest]) {
        oldest := some;
      }
    }
  }

  /** The next scan can find a record that is not to be kept, and the rest stays within reach. */
  lemma NextVictim(q: Queue, limit: nat, kept: set<string>) returns (order: seq<string>)
    requires limit > 0 && |q| > limit && IsExcessDropped(q, limit, kept) && Spares(q, kept)
    ensures IsOrder(q, order)
    ensures var ref := Scan(q, order).ref; ref in q && ref !in kept && Spares(q - {ref}, kept)
  {
    assert |q.Keys| == |q|;
    var going := q.Keys - kept;
    assert going != {} by {
      SubsetSize(kept, q.Keys);
    }
    if OldestFirst(q, kept) && ("" in q ==> "" in kept) {
      var ref := OldestExists(q, going);
      order := OldestGoes(q, kept, ref);
    } else if NoNewerThanEmpty(q) != {} {
      var ref := OldestExists(q, NoNewerThanEmpty(q));
      order := OldestCanGo(q, ref);
      assert NoNewerThanEmpty(q - {ref}) <= NoNewerThanEmpty(q);
    } else {
      order := AnyGoes(q, kept);
    }
  }

  lemma OldestGoes(q: Queue, kept: set<string>, ref: string) returns (order: seq<string>)
    requires OldestFirst(q, kept) && ("" in q ==> "" in kept)
    requires ref in q && ref !in kept && OldestOf(q, q.Keys - kept, ref)
    ensures IsOrder(q, order) && Scan(q, order).ref == ref && Spares(q - {ref}, kept)
  {
    forall r | r in q
      ensures NotNewer(q, ref, r)
    {
      assert r in kept || r in q.Keys - kept;
    }
    order := OldestCanGo(q, ref);
    forall e, k | e in q - {ref} && e !in kept && k in q - {ref} && k in kept
      ensures NotNewer(q - {ref}, e, k)
    {
      assert NotNewer(q, e, k);
    }
  }

  lemma AnyGoes(q: Queue, kept: set<string>) returns (order: seq<string>)
    requires "" in q && NoNewerThanEmpty(q) == {} && q.Keys - kept != {}
    ensures IsOrder(q, order)
    ensures var ref := Scan(q, order).ref; ref in q && ref !in kept && Spares(q - {ref}, kept)
  {
    if ref :| ref in q.Keys - kept && ref != "" {
      order := AnyCanGo(q, ref);
      assert NoNewerThanEmpty(q - {ref}) <= NoNewerThanEmpty(q);
    } else {
      order := AnyCanGo(q, "");
      assert forall e | e in q - {""} :: e in q.Keys - kept ==> e == "";
    }
  }

  lemma EqualSize(a: set<string>, b: set<string>)
    requires a <= b && |a| == |b|
    ensures a == b
  {
    SubsetSize(a, b);
    assert b == a + (b - a);
  }

  lemma {:induction false} SparedCanBeKept(q: Queue, limit: nat, kept: set<string>)
    requires IsExcessDropped(q, limit, kept) && Spares(q, kept)
    ensures MayKeep(q, limit, kept)
    decreases q.Keys
  {
    if limit > 0 && |q| > limit {
      var order := NextVictim(q, limit, kept);
      var ref := Scan(q, order).ref;
      var left := q - {ref};
      assert left.Keys == q.Keys - {ref} && |left| == |left.Keys| && |q| == |q.Keys|;
      if |left| == limit {
        EqualSize(kept, left.Keys);
      }
      SparedCanBeKept(left, limit, kept);
      assert Without(q, order) == left;
    }
  }

  /**
  Exactly what the loop can leave, over all visiting orders: the limit is met,
  and either the oldest records went, or the record under the empty key was
  there, everything no newer than it went, and the rest is arbitrary.
  */
  lemma MayKeepExactly(q: Queue, limit: nat, kept: set<string>)
    ensures MayKeep(q, limit, kept) <==> IsExcessDropped(q, limit, kept) && Spares(q, kept)
  {
    if MayKeep(q, limit, kept) {
      KeptIsSpared(q, limit, kept);
    } else if IsExcessDropped(q, limit, kept) && Spares(q, kept) {
      SparedCanBeKept(q, limit, kept);
    }
  }

  /** Without an empty key the loop leaves exactly the outcomes of an oldest-first retention. */
  lemma NamedKeysGoOldestFirst(q: Queue, limit: nat, kept: set<string>)
    requires "" !in q
    ensures MayKeep(q, limit, kept) <==> IsRetention(q, limit, kept)
  {
    MayKeepExactly(q, limit, kept);
    assert kept <= q.Keys ==>
        (OldestFirst(q, kept) <==> forall e, k | e in q && e !in kept && k in kept :: NotNewer(q, e, k));
  }

  // ---------- when the order breaks, and who can go ----------

  lemma SubsetSize(a: set<string>, b: set<string>)
    requires a <= b
    ensures |a| <= |b|
    ensures |b - a| == |b| - |a|
  {
    assert b == a + (b - a) && a !! (b - a);
  }

  lemma {:induction false} SubsetOfSize(refs: set<string>, size: nat) returns (part: set<string>)
    requires size <= |refs|
    ensures part <= refs && |part| == size
    decreases |refs|
  {
    if size == |refs| {
      part := refs;
    } else {
      var r :| r in refs;
      part := SubsetOfSize(refs - {r}, size);
    }
  }

  /**
  The oldest-first order can break exactly when a record sits under the empty
  key and fewer of the others are no newer than it than records have to go.
  */
  lemma OrderBreaksIff(q: Queue, limit: nat)
    ensures (exists kept :: MayKeep(q, limit, kept) && !IsRetention(q, limit, kept))
       <==> (limit > 0 && "" in q && |NoNewerThanEmpty(q)| < |q| - limit)
  {
    forall kept | MayKeep(q, limit, kept) && !IsRetention(q, limit, kept)
      ensures limit > 0 && "" in q && |NoNewerThanEmpty(q)| < |q| - limit
    {
      MayKeepExactly(q, limit, kept);
      var e, k :| e in q && e !in kept && k in kept && !NotNewer(q, e, k);
      assert !OldestFirst(q, kept);
      GoneFits(q, limit, kept, NoNewerThanEmpty(q), e);
    }
    if limit > 0 && "" in q && |NoNewerThanEmpty(q)| < |q| - limit {
      var kept := BreakOrder(q, limit);
    }
  }

  /** What is gone fits into the excess. */
  lemma GoneFits(q: Queue, limit: nat, kept: set<string>, gone: set<string>, one: string)
    requires IsExcessDropped(q, limit, kept) && gone <= q.Keys && gone !! kept
    requires one in q && one !in kept && one !in gone
    ensures limit > 0 && |gone| < |q| - limit
  {
    assert |q.Keys| == |q|;
    SubsetSize(kept, q.Keys);
    SubsetSize(gone + {one}, q.Keys - kept);
  }

  /** The smallest case: visited first, the older record under the empty key hides itself and "a" goes. */
  lemma EmptyKeyHidesItself(q: Queue)
    requires q.Keys == {"", "a"} && Timestamp(q[""]) == 1 && Timestamp(q["a"]) == 5
    ensures IsOrder(q, ["", "a"]) && Scan(q, ["", "a"]) == Best("a", 5)
    ensures MayKeep(q, 1, {""}) && !IsRetention(q, 1, {""})
  {
    assert |q.Keys| == |q|;
    assert ["", "a"][..1] == [""] && [""][..0] == [];
    MayKeepExactly(q, 1, {""});
    assert !NotNewer(q, "a", "");
  }

  lemma BreakOrder(q: Queue, limit: nat) returns (kept: set<string>)
    requires limit > 0 && "" in q && |NoNewerThanEmpty(q)| < |q| - limit
    ensures MayKeep(q, limit, kept) && !IsRetention(q, limit, kept)
  {
    var low := NoNewerThanEmpty(q);
    var high := q.Keys - low - {""};
    assert |q.Keys| == |q|;
    SubsetSize(low + {""}, q.Keys);
    assert high == q.Keys - (low + {""});
    var stay := SubsetOfSize(high, limit - 1);
    SubsetSize(stay, high);
    kept := stay + {""};
    MayKeepExactly(q, limit, kept);
    var e :| e in high - stay;
    assert !NotNewer(q, e, "");
  }

  function Older(q: Queue, ref: string): set<string>
    requires ref in q
  {
    set other | other in q && Timestamp(q[other]) < Timestamp(q[ref])
  }

  /**
  Who has to go before this record can: those strictly older, unless an empty
  key is in the way; past it, only those no newer than the empty key's record.
  */
  function Ahead(q: Queue, ref: string): set<string>
    requires ref in q
  {
    if "" in q && (ref == "" || Timestamp(q[""]) < Timestamp(q[ref])) then NoNewerThanEmpty(q) else Older(q, ref)
  }

  // Evicts `count` of the candidates, oldest first, taking `first` as early as ties allow.
  lemma {:induction false} EvictOldest(q: Queue, candidates: set<string>, count: nat, first: string)
    returns (evicted: set<string>)
    requires candidates <= q.Keys && count <= |candidates|
    ensures evicted <= candidates && |evicted| == count
    ensures forall e, k | e in evicted && k in candidates - evicted :: Timestamp(q[e]) <= Timestamp(q[k])
    ensures first in candidates && |Older(q, first) * candidates| < count ==> first in evicted
    decreases count
  {
    if count == 0 {
      evicted := {};
    } else {
      var next := OldestExists(q, candidates);
      if first in candidates && Timestamp(q[first]) <= Timestamp(q[next]) {
        next := first;
      }
      var rest := candidates - {next};
      var more := EvictOldest(q, rest, count - 1, first);
      evicted := more + {next};
      assert candidates - evicted == rest - more;
      if first in rest {
        assert Older(q, first) * candidates == Older(q, first) * rest + {next};
      }
    }
  }

  lemma OldestCandidatesGo(q: Queue, limit: nat, ref: string, candidates: set<string>) returns (kept: set<string>)
    requires ref in candidates && candidates <= q.Keys && |Older(q, ref) * candidates| < |q| - limit <= |candidates|
    requires limit > 0 && candidates == if "" in q then NoNewerThanEmpty(q) else q.Keys
    ensures MayKeep(q, limit, kept) && ref !in kept
  {
    var evicted := EvictOldest(q, candidates, |q| - limit, ref);
    assert |q.Keys| == |q|;
    SubsetSize(evicted, q.Keys);
    kept := q.Keys - evicted;
    forall e, k | e in q && e !in kept && k in q && k in kept
      ensures NotNewer(q, e, k)
    {
      assert k in candidates ==> k in candidates - evicted;
    }
    MayKeepExactly(q, limit, kept);
  }

  lemma AllNoNewerGo(q: Queue, limit: nat, ref: string) returns (kept: set<string>)
    requires ref in q && "" in q && limit > 0 && |NoNewerThanEmpty(q) + {ref}| <= |q| - limit
    ensures MayKeep(q, limit, kept) && ref !in kept
  {
    var low := NoNewerThanEmpty(q) + {ref};
    assert |q.Keys| == |q|;
    SubsetSize(low, q.Keys);
    kept := SubsetOfSize(q.Keys - low, limit);
    MayKeepExactly(q, limit, kept);
  }

  lemma FewAheadCanGo(q: Queue, limit: nat, ref: string) returns (kept: set<string>)
    requires ref in q && limit > 0 && |Ahead(q, ref)| < |q| - limit
    ensures MayKeep(q, limit, kept) && ref !in kept
  {
    assert |q.Keys| == |q|;
    var low := NoNewerThanEmpty(q);
    if "" !in q {
      assert Older(q, ref) * q.Keys == Older(q, ref);
      kept := OldestCandidatesGo(q, limit, ref, q.Keys);
    } else if |low + {ref}| <= |q| - limit {
      kept := AllNoNewerGo(q, limit, ref);
    } else {
      assert ref in low && low + {ref} == low;
      assert Older(q, ref) * low == Older(q, ref);
      kept := OldestCandidatesGo(q, limit, ref, low);
    }
  }

  /**
  A record can be evicted exactly when fewer records are ahead of it than have
  to go. Being stored last does not protect it.
  */
  lemma EvictableIffFewAhead(q: Queue, limit: nat, ref: string)
    requires ref in q
    ensures (exists kept :: MayKeep(q, limit, kept) && ref !in kept)
       <==> (limit > 0 && |Ahead(q, ref)| < |q| - limit)
  {
    forall kept | MayKeep(q, limit, kept) && ref !in kept
      ensures limit > 0 && |Ahead(q, ref)| < |q| - limit
    {
      EvictedHasFewAhead(q, limit, ref, kept);
    }
    if limit > 0 && |Ahead(q, ref)| < |q| - limit {
      var kept := FewAheadCanGo(q, limit, ref);
    }
  }

  lemma AheadIsGone(q: Queue, kept: set<string>, ref: string, k: string)
    requires Spares(q, kept) && ref in q && ref !in kept && k in q && k in kept
    ensures k !in Ahead(q, ref)
  {
    if OldestFirst(q, kept) && ("" in q ==> "" in kept) {
      assert NotNewer(q, ref, k);
      assert "" in q ==> NotNewer(q, ref, "");
    } else {
      assert k !in NoNewerThanEmpty(q);
    }
  }

  lemma EvictedHasFewAhead(q: Queue, limit: nat, ref: string, kept: set<string>)
    requires ref in q && ref !in kept && MayKeep(q, limit, kept)
    ensures limit > 0 && |Ahead(q, ref)| < |q| - limit
  {
    MayKeepExactly(q, limit, kept);
    forall k | k in kept {
      AheadIsGone(q, kept, ref, k);
    }
    GoneFits(q, limit, kept, Ahead(q, ref), ref);
  }
}
