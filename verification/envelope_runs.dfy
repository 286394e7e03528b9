/**
What holds over whole runs of the envelope store: any mix of calls, failed
persists, evictions and restarts, with any configuration after each restart.
A crash in the middle of a call is a persist outcome followed by a restart
(EnvelopeValues.PersistNeverTears).
*/
module EnvelopeRuns {
  import opened Common
  import opened Refs
  import opened EnvelopeValues
  import opened Retention

  datatype Event =
    | EnqueueCall(input: EnqueueInput, clock: Clock, kept: set<string>, outcome: PersistOutcome)
    | ClaimCall(claim: ClaimInput, clock: Clock, outcome: PersistOutcome)
    | ReceiveCall(received: ReceiveInput, clock: Clock, kept: set<string>, outcome: PersistOutcome)
    | InboxCall(ref: string)
    | RestartCall(cfg: StoreConfig, readable: bool)

  function Step(s: System, e: Event): (System, Reply) {
    match e
    case EnqueueCall(input, clock, kept, outcome) => Enqueue(s, input, clock, kept, outcome)
    case ClaimCall(claim, clock, outcome) => Claim(s, claim, clock, outcome)
    case ReceiveCall(received, clock, kept, outcome) => Receive(s, received, clock, kept, outcome)
    case InboxCall(ref) => (s, ReadInbox(s, ref))
    case RestartCall(cfg, readable) => Restart(s, cfg, readable)
  }

  function Run(s: System, es: seq<Event>): System
    decreases |es|
  {
    if es == [] then s else Run(Step(s, es[0]).0, es[1..])
  }

  // ---------- claims never exceed enqueues ----------

  /** The event puts a queued record for `ref` into the outbox map, persisted or not. */
  predicate Enqueues(e: Event, ref: string) {
    && e.EnqueueCall?
    && CheckEnqueue(e.input).None?
    && EnqueuedRecord(e.input, e.clock).meta.envelopeRef == ref
  }

  predicate Claims(s: System, e: Event, ref: string) {
    e.ClaimCall? && e.claim.envelopeRef == ref && Step(s, e).1.Returned?
  }

  function EnqueueCount(es: seq<Event>, ref: string): nat {
    if es == [] then 0 else (if Enqueues(es[0], ref) then 1 else 0) + EnqueueCount(es[1..], ref)
  }

  function ClaimCount(s: System, es: seq<Event>, ref: string): nat
    decreases |es|
  {
    if es == [] then 0
    else (if Claims(s, es[0], ref) then 1 else 0) + ClaimCount(Step(s, es[0]).0, es[1..], ref)
  }

  predicate Queued(q: Queue, ref: string) {
    ref in q && q[ref].meta.status == "queued"
  }

  function DiskOutbox(file: FileState): Queue {
    if file.image.Some? && file.image.value.Document? then DecodeQueue(file.image.value.outbox) else map[]
  }

  function DiskInbox(file: FileState): Queue {
    if file.image.Some? && file.image.value.Document? then DecodeQueue(file.image.value.inbox) else map[]
  }

  /**
  How many more claims of `ref` this state can pay for: one when it is queued
  in memory or in the file; a memory-only store in front of a leftover file
  may hold two separate tokens.
  */
  function Tokens(s: System, ref: string): nat {
    var inMemory, onDisk := Queued(s.mem.outbox, ref), Queued(DiskOutbox(s.file), ref);
    if s.cfg.localFile then (if inMemory || onDisk then 1 else 0)
    else (if inMemory then 1 else 0) + (if onDisk then 1 else 0)
  }

  /** A commit always installs the new memory; the storage path changes only when the whole persist succeeds. */
  lemma CommitEffect(s: System, m: Memory, record: Record, outcome: PersistOutcome)
    ensures var (next, reply) := Commit(s, m, record, outcome);
      && next.cfg == s.cfg && next.mem == m
      && next.file.image == (if s.cfg.localFile && outcome == Persisted then Some(Encode(m)) else s.file.image)
      && (reply.Returned? <==> !s.cfg.localFile || outcome == Persisted)
  {
    match outcome
    case Persisted =>
    case MkdirFailed =>
    case TempWriteFailed =>
    case RenameFailed =>
  }

  lemma CommitReachesDisk(s: System, m: Memory, record: Record, outcome: PersistOutcome)
    ensures Commit(s, m, record, outcome).0.cfg == s.cfg && Commit(s, m, record, outcome).0.mem == m
    ensures var file := Commit(s, m, record, outcome).0.file;
      || (DiskOutbox(file) == DiskOutbox(s.file) && DiskInbox(file) == DiskInbox(s.file))
      || (s.cfg.localFile && DiskOutbox(file) == m.outbox && DiskInbox(file) == m.inbox)
    ensures s.cfg.localFile && Commit(s, m, record, outcome).1.Returned? ==>
      DiskOutbox(Commit(s, m, record, outcome).0.file) == m.outbox
  {
    CommitEffect(s, m, record, outcome);
    EncodedQueueDecodes(m.outbox);
    EncodedQueueDecodes(m.inbox);
  }

  /** What a call installs in memory and tries to persist, and the record it answers with. */
  datatype Write = Write(mem: Memory, record: Record)

  /** None for a call that is refused or only reads, and for a restart. */
  function Written(s: System, e: Event): Option<Write> {
    match e
    case EnqueueCall(input, clock, kept, _) =>
      if CheckEnqueue(input).Some? then None
      else Some(Write(s.mem.(outbox := Retain(Filled(s, e).value, kept)), EnqueuedRecord(input, clock)))
    case ClaimCall(claim, clock, _) =>
      if CheckClaim(s.mem.outbox, claim).Some? then None
      else
        var record := Claimed(s.mem.outbox[claim.envelopeRef], claim, clock);
        Some(Write(s.mem.(outbox := s.mem.outbox[claim.envelopeRef := record]), record))
    case ReceiveCall(received, clock, kept, _) =>
      if CheckReceive(received).Some? then None
      else Some(Write(s.mem.(inbox := Retain(Filled(s, e).value, kept)), ReceivedRecord(received, clock)))
    case _ => None
  }

  /** The queue a call is about to evict from, its own record included. */
  function Filled(s: System, e: Event): Option<Queue> {
    match e
    case EnqueueCall(input, clock, _, _) =>
      if CheckEnqueue(input).Some? then None
      else
        var record := EnqueuedRecord(input, clock);
        Some(s.mem.outbox[record.meta.envelopeRef := record])
    case ReceiveCall(received, clock, _, _) =>
      if CheckReceive(received).Some? then None
      else
        var record := ReceivedRecord(received, clock);
        Some(s.mem.inbox[record.meta.envelopeRef := record])
    case _ => None
  }

  lemma StepCommits(s: System, e: Event)
    ensures match Written(s, e)
      case Some(w) => Step(s, e) == Commit(s, w.mem, w.record, e.outcome)
      case None => e.RestartCall? || Step(s, e).0 == s
  {}

  lemma StepPaysForClaims(s: System, e: Event, ref: string)
    ensures (if Claims(s, e, ref) then 1 else 0) + Tokens(Step(s, e).0, ref)
         <= (if Enqueues(e, ref) then 1 else 0) + Tokens(s, ref)
  {
    if Written(s, e).Some? {
      var w := Written(s, e).value;
      StepCommits(s, e);
      CommitReachesDisk(s, w.mem, w.record, e.outcome);
    }
  }

  /**
  From any state, through any events: the successful claims of a ref, plus one
  if it is still claimable, never exceed the enqueues of that ref that reached
  the map, plus what was claimable at the start.
  */
  lemma {:induction false} ClaimsArePaidFor(s: System, es: seq<Event>, ref: string)
    ensures ClaimCount(s, es, ref) + Tokens(Run(s, es), ref) <= EnqueueCount(es, ref) + Tokens(s, ref)
    decreases |es|
  {
    if es != [] {
      StepPaysForClaims(s, es[0], ref);
      ClaimsArePaidFor(Step(s, es[0]).0, es[1..], ref);
    }
  }

  /** From an empty store on a fresh path there are never more claims than enqueues. */
  lemma ClaimsNeverExceedEnqueues(cfg: StoreConfig, es: seq<Event>, ref: string)
    ensures ClaimCount(System(cfg, EMPTY_MEMORY, FileState(None, None)), es, ref) <= EnqueueCount(es, ref)
  {
    ClaimsArePaidFor(System(cfg, EMPTY_MEMORY, FileState(None, None)), es, ref);
  }

  /** After a successful file-backed claim, each further claim of the ref needs an enqueue of its own. */
  lemma ReclaimNeedsEnqueue(s: System, e: Event, es: seq<Event>, ref: string)
    requires s.cfg.localFile && Claims(s, e, ref)
    ensures ClaimCount(Step(s, e).0, es, ref) <= EnqueueCount(es, ref)
  {
    var record := Claimed(s.mem.outbox[ref], e.claim, e.clock);
    CommitReachesDisk(s, s.mem.(outbox := s.mem.outbox[ref := record]), record, e.outcome);
    assert Tokens(Step(s, e).0, ref) == 0;
    ClaimsArePaidFor(Step(s, e).0, es, ref);
  }

  // ---------- restart transparency ----------

  /** Loading the file would give what memory holds, whoever wrote it; an absent file stands for an empty store. */
  predicate Synced(s: System) {
    s.cfg.localFile && Load(s.file, true) == Ok(s.mem)
  }

  /** A call whose persist succeeds, or a restart under the same configuration. */
  predicate Healthy(cfg: StoreConfig, e: Event) {
    match e
    case EnqueueCall(_, _, _, outcome) => outcome == Persisted
    case ClaimCall(_, _, outcome) => outcome == Persisted
    case ReceiveCall(_, _, _, outcome) => outcome == Persisted
    case InboxCall(_) => true
    case RestartCall(c, readable) => c == cfg && readable
  }

  function WithoutRestarts(es: seq<Event>): seq<Event> {
    if es == [] then [] else (if es[0].RestartCall? then [] else [es[0]]) + WithoutRestarts(es[1..])
  }

  /** The replies the callers see, restarts apart. */
  function Replies(s: System, es: seq<Event>): seq<Reply>
    decreases |es|
  {
    if es == [] then []
    else (if es[0].RestartCall? then [] else [Step(s, es[0]).1]) + Replies(Step(s, es[0]).0, es[1..])
  }

  lemma CommitStaysSynced(s: System, m: Memory, record: Record)
    requires Synced(s) && m.version == s.mem.version
    ensures var next := Commit(s, m, record, Persisted).0; Synced(next) && next.cfg == s.cfg
  {
    CommitEffect(s, m, record, Persisted);
    LoadUndoesPersist(m, Commit(s, m, record, Persisted).0.file.temp);
  }

  lemma HealthyStepStaysSynced(s: System, e: Event)
    requires Synced(s) && Healthy(s.cfg, e)
    ensures Synced(Step(s, e).0) && Step(s, e).0.cfg == s.cfg
    ensures e.RestartCall? ==> Step(s, e) == (s, Reopened)
  {
    StepCommits(s, e);
    if Written(s, e).Some? {
      CommitStaysSynced(s, Written(s, e).value.mem, Written(s, e).value.record);
    }
  }

  /** Restarts inserted anywhere in a healthy file-backed run change no reply and no final state. */
  lemma {:induction false} RestartsAreTransparent(s: System, es: seq<Event>)
    requires Synced(s) && forall e | e in es :: Healthy(s.cfg, e)
    ensures Replies(s, es) == Replies(s, WithoutRestarts(es))
    ensures Run(s, es) == Run(s, WithoutRestarts(es))
    ensures Synced(Run(s, es))
    decreases |es|
  {
    if es != [] {
      var e, rest := es[0], es[1..];
      var next := Step(s, e).0;
      HealthyStepStaysSynced(s, e);
      assert forall x | x in rest :: x in es;
      RestartsAreTransparent(next, rest);
      if !e.RestartCall? {
        var bare := [e] + WithoutRestarts(rest);
        assert WithoutRestarts(es) == bare && bare[0] == e && bare[1..] == WithoutRestarts(rest);
      } else {
        assert WithoutRestarts(es) == WithoutRestarts(rest);
        assert Replies(s, es) == Replies(next, rest);
      }
    }
  }

  /**
  A claim changes memory whether or not its persist succeeds: it blocks every
  further claim until a restart, and the restart gives the record back exactly
  when the persist had failed, at whatever step.
  */
  lemma FailedPersistLosesTheClaim(s: System, claim: ClaimInput, clock: Clock, outcome: PersistOutcome,
                                   again: ClaimInput)
    requires Synced(s) && CheckClaim(s.mem.outbox, claim).None?
    requires again.envelopeRef == claim.envelopeRef && again.claimantRef != ""
    ensures var (s1, reply) := Claim(s, claim, clock, outcome);
      && (if outcome == Persisted then reply.Returned? else reply == Rejected(StorageFailed(outcome)))
      && CheckClaim(s1.mem.outbox, again) == Some(Already(claim.envelopeRef, "claimed"))
      && Restart(s1, s.cfg, true).0.mem == (if outcome == Persisted then s1.mem else s.mem)
      && (CheckClaim(Restart(s1, s.cfg, true).0.mem.outbox, again).None? <==> outcome != Persisted)
  {
    var record := Claimed(s.mem.outbox[claim.envelopeRef], claim, clock);
    var mem := s.mem.(outbox := s.mem.outbox[claim.envelopeRef := record]);
    CommitEffect(s, mem, record, outcome);
    if outcome == Persisted {
      CommitStaysSynced(s, mem, record);
    }
  }

  // ---------- lease uniqueness ----------

  /** Keys are generated refs, records sit under their own ref, leases name that ref. */
  ghost predicate WellNamed(outbox: Queue) {
    forall ref | ref in outbox ::
      && IsGenerated("outbox", ref)
      && outbox[ref].meta.envelopeRef == ref
      && (outbox[ref].meta.leaseRef == "" || LeaseOf(outbox[ref].meta.leaseRef, ref))
  }

  ghost predicate WellNamedSystem(s: System) {
    WellNamed(s.mem.outbox) && WellNamed(DiskOutbox(s.file))
  }

  lemma WrittenIsWellNamed(s: System, e: Event)
    requires WellNamed(s.mem.outbox) && Written(s, e).Some?
    ensures WellNamed(Written(s, e).value.mem.outbox)
  {
    match e
    case EnqueueCall(input, clock, _, _) =>
      EnvelopeRefIsGenerated("outbox", input.idempotencyKey, input.senderRef, input.recipientRef, input.messageRef,
                             clock.nanos);
    case ClaimCall(claim, clock, _) =>
      assert LeaseOf(Claimed(s.mem.outbox[claim.envelopeRef], claim, clock).meta.leaseRef, claim.envelopeRef);
    case _ =>
  }

  lemma StepStaysWellNamed(s: System, e: Event)
    requires WellNamedSystem(s)
    ensures WellNamedSystem(Step(s, e).0)
  {
    StepCommits(s, e);
    if Written(s, e).Some? {
      WrittenIsWellNamed(s, e);
      CommitReachesDisk(s, Written(s, e).value.mem, Written(s, e).value.record, e.outcome);
    }
  }

  lemma {:induction false} RunStaysWellNamed(s: System, es: seq<Event>)
    requires WellNamedSystem(s)
    ensures WellNamedSystem(Run(s, es))
    decreases |es|
  {
    if es != [] {
      StepStaysWellNamed(s, es[0]);
      RunStaysWellNamed(Step(s, es[0]).0, es[1..]);
    }
  }

  /** In every outbox a run can reach, two different records never carry the same lease. */
  lemma LeasesAreUnique(s: System, es: seq<Event>, ref: string, other: string)
    requires WellNamedSystem(s)
    requires var outbox := Run(s, es).mem.outbox;
      ref in outbox && other in outbox && ref != other && outbox[ref].meta.leaseRef != ""
    ensures Run(s, es).mem.outbox[ref].meta.leaseRef != Run(s, es).mem.outbox[other].meta.leaseRef
  {
    RunStaysWellNamed(s, es);
    var outbox := Run(s, es).mem.outbox;
    if outbox[ref].meta.leaseRef == outbox[other].meta.leaseRef {
      LeaseNamesItsEnvelope(outbox[ref].meta.leaseRef, ref, other);
    }
  }

  datatype Lease = Lease(leaseRef: string, envelopeRef: string)

  /** Every lease handed to a claimant in the run, with the envelope it was handed out for. */
  function Issued(s: System, es: seq<Event>): set<Lease>
    decreases |es|
  {
    if es == [] then {}
    else
      var (next, reply) := Step(s, es[0]);
      (if es[0].ClaimCall? && reply.Returned? then {Lease(reply.record.meta.leaseRef, es[0].claim.envelopeRef)} else {})
        + Issued(next, es[1..])
  }

  lemma {:induction false} IssuedLeasesNameTheirEnvelope(s: System, es: seq<Event>, l: Lease)
    requires WellNamedSystem(s) && l in Issued(s, es)
    ensures IsGenerated("outbox", l.envelopeRef) && LeaseOf(l.leaseRef, l.envelopeRef)
    decreases |es|
  {
    var (next, reply) := Step(s, es[0]);
    if l in Issued(next, es[1..]) {
      StepStaysWellNamed(s, es[0]);
      IssuedLeasesNameTheirEnvelope(next, es[1..], l);
    } else {
      var claim := es[0].claim;
      assert l.leaseRef == LeaseFor(FirstNonEmpty(claim.leaseId, claim.claimantRef), claim.envelopeRef);
    }
  }

  /** Over a whole run, a lease ref is never issued for two different envelopes. */
  lemma IssuedLeasesAreUnique(s: System, es: seq<Event>, l: Lease, m: Lease)
    requires WellNamedSystem(s) && l in Issued(s, es) && m in Issued(s, es)
    requires l.leaseRef == m.leaseRef
    ensures l.envelopeRef == m.envelopeRef
  {
    IssuedLeasesNameTheirEnvelope(s, es, l);
    IssuedLeasesNameTheirEnvelope(s, es, m);
    LeaseNamesItsEnvelope(l.leaseRef, l.envelopeRef, m.envelopeRef);
  }

  // ---------- evictions ----------

  /** What the call kept is something the eviction loop can leave, in some visiting orders. */
  ghost predicate Lawful(s: System, e: Event) {
    Filled(s, e).Some? ==> MayKeep(Filled(s, e).value, s.cfg.retentionLimit, e.kept)
  }

  ghost predicate LawfulRun(s: System, es: seq<Event>)
    decreases |es|
  {
    es == [] || (Lawful(s, es[0]) && LawfulRun(Step(s, es[0]).0, es[1..]))
  }

  predicate NoEmptyKey(s: System) {
    && "" !in s.mem.outbox && "" !in s.mem.inbox
    && "" !in DiskOutbox(s.file) && "" !in DiskInbox(s.file)
  }

  lemma FilledHasNoEmptyKey(s: System, e: Event)
    requires NoEmptyKey(s) && Filled(s, e).Some?
    ensures "" !in Filled(s, e).value
  {
    match e
    case EnqueueCall(input, clock, _, _) =>
      EnvelopeRefIsGenerated("outbox", input.idempotencyKey, input.senderRef, input.recipientRef, input.messageRef,
                             clock.nanos);
    case ReceiveCall(received, clock, _, _) =>
      EnvelopeRefIsGenerated("inbox", received.idempotencyKey, received.recipientRef,
                             received.envelope.value.address.senderId, "", clock.nanos);
    case _ =>
  }

  /** No call puts a record under the empty key, in memory or on disk. */
  lemma StepAddsNoEmptyKey(s: System, e: Event)
    requires NoEmptyKey(s)
    ensures NoEmptyKey(Step(s, e).0)
  {
    StepCommits(s, e);
    if Written(s, e).Some? {
      if Filled(s, e).Some? {
        FilledHasNoEmptyKey(s, e);
      }
      CommitReachesDisk(s, Written(s, e).value.mem, Written(s, e).value.record, e.outcome);
    }
  }

  lemma {:induction false} RunAddsNoEmptyKey(s: System, es: seq<Event>)
    requires NoEmptyKey(s)
    ensures NoEmptyKey(Run(s, es))
    decreases |es|
  {
    if es != [] {
      StepAddsNoEmptyKey(s, es[0]);
      RunAddsNoEmptyKey(Step(s, es[0]).0, es[1..]);
    }
  }

  /**
  Every eviction of every run is oldest first: after any events from a store
  without empty keys, such as a fresh one on an unused path, what a call can
  leave is exactly what drops the excess and nobody newer than anybody kept.
  */
  lemma EvictionsGoOldestFirst(s: System, es: seq<Event>, e: Event)
    requires NoEmptyKey(s)
    ensures var now := Run(s, es);
      Filled(now, e).Some? ==>
        (Lawful(now, e) <==> IsRetention(Filled(now, e).value, now.cfg.retentionLimit, e.kept))
  {
    var now := Run(s, es);
    RunAddsNoEmptyKey(s, es);
    if Filled(now, e).Some? {
      FilledHasNoEmptyKey(now, e);
      NamedKeysGoOldestFirst(Filled(now, e).value, now.cfg.retentionLimit, e.kept);
    }
  }

  /**
  An enqueue can answer with a record that it has just evicted, so that the next
  claim finds nothing, exactly when fewer stored records are strictly older than
  the new one than have to go.
  */
  lemma EnqueueCanLoseItsRecord(s: System, input: EnqueueInput, clock: Clock, claim: ClaimInput, later: Clock,
                                outcome: PersistOutcome)
    requires NoEmptyKey(s) && CheckEnqueue(input).None?
    requires claim.envelopeRef == EnqueuedRecord(input, clock).meta.envelopeRef && claim.claimantRef != ""
    ensures var record, ref, limit := EnqueuedRecord(input, clock), claim.envelopeRef, s.cfg.retentionLimit;
      var queue := s.mem.outbox[ref := record];
      (exists kept ::
         && MayKeep(queue, limit, kept)
         && var (s1, reply) := Enqueue(s, input, clock, kept, Persisted);
            reply == Returned(record) && Claim(s1, claim, later, outcome) == (s1, Rejected(NotQueued(ref))))
      <==> (limit > 0 && |Older(queue, ref)| < |queue| - limit)
  {
    var record, ref, limit := EnqueuedRecord(input, clock), claim.envelopeRef, s.cfg.retentionLimit;
    var queue := s.mem.outbox[ref := record];
    FilledHasNoEmptyKey(s, EnqueueCall(input, clock, {}, Persisted));
    EvictableIffFewAhead(queue, limit, ref);
    forall kept
      ensures var (s1, reply) := Enqueue(s, input, clock, kept, Persisted);
        && reply == Returned(record)
        && (Claim(s1, claim, later, outcome) == (s1, Rejected(NotQueued(ref))) <==> ref !in kept)
    {}
  }

  /** A receive can lose its record in the same way: answered, and not there to be read. */
  lemma ReceiveCanLoseItsRecord(s: System, input: ReceiveInput, clock: Clock)
    requires NoEmptyKey(s) && CheckReceive(input).None?
    ensures var record, limit := ReceivedRecord(input, clock), s.cfg.retentionLimit;
      var ref := record.meta.envelopeRef;
      var queue := s.mem.inbox[ref := record];
      (exists kept ::
         && MayKeep(queue, limit, kept)
         && var (s1, reply) := Receive(s, input, clock, kept, Persisted);
            reply == Returned(record) && ReadInbox(s1, ref) == Rejected(NotReceived(ref)))
      <==> (limit > 0 && |Older(queue, ref)| < |queue| - limit)
  {
    var record, limit := ReceivedRecord(input, clock), s.cfg.retentionLimit;
    var ref := record.meta.envelopeRef;
    var queue := s.mem.inbox[ref := record];
    FilledHasNoEmptyKey(s, ReceiveCall(input, clock, {}, Persisted));
    EvictableIffFewAhead(queue, limit, ref);
    forall kept
      ensures var (s1, reply) := Receive(s, input, clock, kept, Persisted);
        && reply == Returned(record)
        && (ReadInbox(s1, ref) == Rejected(NotReceived(ref)) <==> ref !in kept)
    {}
  }

  // ---------- queues stay within the limit ----------

  ghost predicate Fits(q: Queue, limit: nat) {
    limit > 0 ==> |q| <= limit
  }

  ghost predicate Bounded(s: System) {
    var limit := s.cfg.retentionLimit;
    && Fits(s.mem.outbox, limit) && Fits(s.mem.inbox, limit)
    && Fits(DiskOutbox(s.file), limit) && Fits(DiskInbox(s.file), limit)
  }

  lemma CommitStaysBounded(s: System, m: Memory, record: Record, outcome: PersistOutcome)
    requires Bounded(s) && Fits(m.outbox, s.cfg.retentionLimit) && Fits(m.inbox, s.cfg.retentionLimit)
    ensures Bounded(Commit(s, m, record, outcome).0)
  {
    CommitReachesDisk(s, m, record, outcome);
  }

  lemma RetainedFits(q: Queue, limit: nat, kept: set<string>)
    requires MayKeep(q, limit, kept)
    ensures Fits(Retain(q, kept), limit)
  {
    MayKeepExactly(q, limit, kept);
    assert Retain(q, kept).Keys == kept && |Retain(q, kept).Keys| == |Retain(q, kept)|;
    assert |q.Keys| == |q|;
  }

  lemma ReplacedFits(q: Queue, limit: nat, ref: string, record: Record)
    requires Fits(q, limit) && ref in q
    ensures Fits(q[ref := record], limit)
  {
    var replaced := q[ref := record];
    assert replaced.Keys == q.Keys && |replaced.Keys| == |replaced| && |q.Keys| == |q|;
  }

  predicate KeepsLimit(e: Event, limit: nat) {
    e.RestartCall? ==> e.cfg.retentionLimit == limit
  }

  /** A restart starts empty, or with what the file holds, or does not happen. */
  lemma RestartReadsDisk(s: System, cfg: StoreConfig, readable: bool)
    ensures var next := Restart(s, cfg, readable).0;
      && next.file == s.file
      && ((next.cfg == cfg && next.mem.outbox == map[] && next.mem.inbox == map[])
          || (next.cfg == cfg && next.mem.outbox == DiskOutbox(s.file) && next.mem.inbox == DiskInbox(s.file))
          || next == s)
  {}

  lemma WrittenFits(s: System, e: Event)
    requires Fits(s.mem.outbox, s.cfg.retentionLimit) && Fits(s.mem.inbox, s.cfg.retentionLimit)
    requires Lawful(s, e) && Written(s, e).Some?
    ensures Fits(Written(s, e).value.mem.outbox, s.cfg.retentionLimit)
    ensures Fits(Written(s, e).value.mem.inbox, s.cfg.retentionLimit)
  {
    if e.ClaimCall? {
      ReplacedFits(s.mem.outbox, s.cfg.retentionLimit, e.claim.envelopeRef, Written(s, e).value.record);
    } else {
      RetainedFits(Filled(s, e).value, s.cfg.retentionLimit, e.kept);
    }
  }

  lemma StepStaysBounded(s: System, e: Event)
    requires Bounded(s) && Lawful(s, e) && KeepsLimit(e, s.cfg.retentionLimit)
    ensures Bounded(Step(s, e).0) && Step(s, e).0.cfg.retentionLimit == s.cfg.retentionLimit
  {
    StepCommits(s, e);
    if Written(s, e).Some? {
      WrittenFits(s, e);
      CommitStaysBounded(s, Written(s, e).value.mem, Written(s, e).value.record, e.outcome);
    } else if e.RestartCall? {
      RestartReadsDisk(s, e.cfg, e.readable);
    }
  }

  /** With a positive limit no queue ever exceeds it, in memory or on disk, through failures and restarts. */
  lemma {:induction false} QueuesStayBounded(s: System, es: seq<Event>)
    requires Bounded(s) && LawfulRun(s, es) && forall e | e in es :: KeepsLimit(e, s.cfg.retentionLimit)
    ensures Bounded(Run(s, es))
    decreases |es|
  {
    if es != [] {
      StepStaysBounded(s, es[0]);
      QueuesStayBounded(Step(s, es[0]).0, es[1..]);
    }
  }
}
