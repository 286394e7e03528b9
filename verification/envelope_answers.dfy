/**
What the calls of the envelope store answer and leave behind, field by field, in
terms of the request alone.
*/
module EnvelopeAnswers {
  import opened Common
  import opened Refs
  import opened EnvelopeValues
  import opened Retention
  import opened EnvelopeRuns

  /** The storage has nothing against this call. */
  predicate Stores(s: System, outcome: PersistOutcome) {
    !s.cfg.localFile || outcome == Persisted
  }

  /** One record went into the queue, and what was not kept is gone; nothing else has moved. */
  ghost predicate Inserted(before: Queue, after: Queue, record: Record, kept: set<string>) {
    var ref := record.meta.envelopeRef;
    && (forall r :: r in after <==> r in kept && (r == ref || r in before))
    && (forall r | r in after :: after[r] == if r == ref then record else before[r])
  }

  // ---------- enqueue and claim ----------

  /** Which field an enqueue misses first, if any. */
  function Missing(input: EnqueueInput): Option<Error> {
    Demand(input.envelope.Some?, EnvelopeRequired,
    Demand(input.envelope.Some? && |input.envelope.value.ciphertext| > 0, CiphertextRequired,
    Demand(input.custodyRef != "", CustodyRefRequired,
    Demand(input.authzRef != "", AuthzRefRequired,
    Demand(input.senderRef != "", SenderRefRequired,
    Demand(input.recipientRef != "", RecipientRefRequired,
    Demand(input.idempotencyKey != "" || input.messageRef != "", KeyOrMessageRefRequired, None)))))))
  }

  /** The envelope as submitted, queued, with each ref in its place and the requested time, or else the clock's. */
  ghost predicate IsQueuedFor(record: Record, input: EnqueueInput, clock: Clock) {
    && Some(record.envelope) == input.envelope
    && record.meta == Metadata(
         envelopeRef := EnvelopeRef("outbox", input.idempotencyKey, input.senderRef, input.recipientRef,
                                    input.messageRef, clock.nanos),
         queue := "outbox", status := "queued",
         senderRef := input.senderRef, recipientRef := input.recipientRef,
         custodyRef := input.custodyRef, authzRef := input.authzRef, messageRef := input.messageRef,
         createdAt := if input.requestedAt == 0 then clock.seconds else input.requestedAt,
         claimedAt := 0, receivedAt := 0, leaseRef := "")
  }

  /** An enqueue is refused for the first field it misses, or puts exactly the submitted envelope into the outbox. */
  lemma EnqueueAnswers(s: System, input: EnqueueInput, clock: Clock, kept: set<string>, outcome: PersistOutcome)
    returns (record: Option<Record>)
    ensures var (after, reply) := Enqueue(s, input, clock, kept, outcome);
      match record
      case None => Missing(input).Some? && after == s && reply == Rejected(Missing(input).value)
      case Some(r) =>
        && Missing(input).None? && IsQueuedFor(r, input, clock)
        && reply == (if Stores(s, outcome) then Returned(r) else Rejected(StorageFailed(outcome)))
        && after.cfg == s.cfg && after.mem.version == s.mem.version && after.mem.inbox == s.mem.inbox
        && Inserted(s.mem.outbox, after.mem.outbox, r, kept)
  {
    if CheckEnqueue(input).Some? {
      record := None;
    } else {
      var r := EnqueuedRecord(input, clock);
      CommitEffect(s, s.mem.(outbox := Retain(s.mem.outbox[r.meta.envelopeRef := r], kept)), r, outcome);
      record := Some(r);
    }
  }

  /** Why a claim is refused, if it is. */
  function ClaimRefusal(s: System, claim: ClaimInput): Option<Error> {
    var known := claim.envelopeRef in s.mem.outbox;
    Demand(claim.envelopeRef != "", EnvelopeRefRequired,
    Demand(claim.claimantRef != "", ClaimantRefRequired,
    Demand(known, NotQueued(claim.envelopeRef),
    Demand(known && s.mem.outbox[claim.envelopeRef].meta.status == "queued",
           Already(claim.envelopeRef, if known then s.mem.outbox[claim.envelopeRef].meta.status else ""), None))))
  }

  /** The record with its claim entered: who holds it and since when, all else as it was. */
  ghost predicate IsClaimOf(claimed: Record, record: Record, claim: ClaimInput, clock: Clock) {
    var holder := if claim.leaseId == "" then claim.claimantRef else claim.leaseId;
    claimed == Record(record.envelope, record.meta.(
      status := "claimed",
      claimedAt := if claim.requestedAt == 0 then clock.seconds else claim.requestedAt,
      leaseRef := "lease://signal/outbox/" + Sanitize(holder) + "/" + Sanitize(claim.envelopeRef)))
  }

  /** A claim is refused for its first reason, or enters itself into the one record and hands that out. */
  lemma ClaimAnswers(s: System, claim: ClaimInput, clock: Clock, outcome: PersistOutcome)
    ensures var (after, reply) := Claim(s, claim, clock, outcome);
      if ClaimRefusal(s, claim).Some? then after == s && reply == Rejected(ClaimRefusal(s, claim).value)
      else
        && claim.envelopeRef in s.mem.outbox && claim.envelopeRef in after.mem.outbox
        && var claimed := after.mem.outbox[claim.envelopeRef];
        && IsClaimOf(claimed, s.mem.outbox[claim.envelopeRef], claim, clock)
        && reply == (if Stores(s, outcome) then Returned(claimed) else Rejected(StorageFailed(outcome)))
        && after.cfg == s.cfg && after.mem == s.mem.(outbox := s.mem.outbox[claim.envelopeRef := claimed])
  {
    if CheckClaim(s.mem.outbox, claim).None? {
      var record := Claimed(s.mem.outbox[claim.envelopeRef], claim, clock);
      CommitEffect(s, s.mem.(outbox := s.mem.outbox[claim.envelopeRef := record]), record, outcome);
    }
  }

  /** What was enqueued and kept can be claimed, by anybody with a name, exactly once, and comes out as it went in. */
  lemma QueuedCanBeClaimed(s: System, input: EnqueueInput, clock: Clock, kept: set<string>, outcome: PersistOutcome,
                           claim: ClaimInput, later: Clock, second: PersistOutcome, again: ClaimInput)
    requires Missing(input).None? && claim.claimantRef != "" && again.claimantRef != ""
    requires claim.envelopeRef == again.envelopeRef
    requires claim.envelopeRef == EnvelopeRef("outbox", input.idempotencyKey, input.senderRef, input.recipientRef,
                                              input.messageRef, clock.nanos)
    requires claim.envelopeRef in kept
    ensures var (queued, _) := Enqueue(s, input, clock, kept, outcome);
      var (after, reply) := Claim(queued, claim, later, second);
      && claim.envelopeRef in queued.mem.outbox
      && var record := queued.mem.outbox[claim.envelopeRef];
      && IsQueuedFor(record, input, clock)
      && (Stores(s, second) ==> reply.Returned? && IsClaimOf(reply.record, record, claim, later))
      && Claim(after, again, later, Persisted).1 == Rejected(Already(claim.envelopeRef, "claimed"))
  {
    var record := EnqueueAnswers(s, input, clock, kept, outcome);
    EnvelopeRefIsGenerated("outbox", input.idempotencyKey, input.senderRef, input.recipientRef, input.messageRef,
                           clock.nanos);
    var queued := Enqueue(s, input, clock, kept, outcome).0;
    ClaimAnswers(queued, claim, later, second);
    ClaimAnswers(Claim(queued, claim, later, second).0, again, later, Persisted);
  }

  // ---------- receive and inbox ----------

  ghost predicate IsReceivedFor(record: Record, input: ReceiveInput, clock: Clock) {
    && Some(record.envelope) == input.envelope
    && record.meta == Metadata(
         envelopeRef := if input.envelopeRef != "" then input.envelopeRef
                        else EnvelopeRef("inbox", input.idempotencyKey, input.recipientRef,
                                         record.envelope.address.senderId, "", clock.nanos),
         queue := "inbox", status := "received",
         senderRef := "", recipientRef := input.recipientRef, custodyRef := "", authzRef := "", messageRef := "",
         createdAt := 0, claimedAt := 0,
         receivedAt := if input.requestedAt == 0 then clock.seconds else input.requestedAt, leaseRef := "")
  }

  function MissingToReceive(input: ReceiveInput): Option<Error> {
    Demand(input.envelope.Some?, EnvelopeRequired,
    Demand(input.envelope.Some? && |input.envelope.value.ciphertext| > 0, CiphertextRequired, None))
  }

  /** A receive is refused without an envelope, or puts it into the inbox under the ref given or made for it. */
  lemma ReceiveAnswers(s: System, input: ReceiveInput, clock: Clock, kept: set<string>, outcome: PersistOutcome)
    returns (record: Option<Record>)
    ensures var (after, reply) := Receive(s, input, clock, kept, outcome);
      match record
      case None => MissingToReceive(input).Some? && after == s && reply == Rejected(MissingToReceive(input).value)
      case Some(r) =>
        && MissingToReceive(input).None? && IsReceivedFor(r, input, clock)
        && reply == (if Stores(s, outcome) then Returned(r) else Rejected(StorageFailed(outcome)))
        && after.cfg == s.cfg && after.mem.version == s.mem.version && after.mem.outbox == s.mem.outbox
        && Inserted(s.mem.inbox, after.mem.inbox, r, kept)
  {
    if CheckReceive(input).Some? {
      record := None;
    } else {
      var r := ReceivedRecord(input, clock);
      CommitEffect(s, s.mem.(inbox := Retain(s.mem.inbox[r.meta.envelopeRef := r], kept)), r, outcome);
      record := Some(r);
    }
  }

  /**
  What was received and kept reads back as it came, under its own ref; any other
  kept record reads as before, and nothing else is there.
  */
  lemma ReceivedCanBeRead(s: System, input: ReceiveInput, clock: Clock, kept: set<string>, outcome: PersistOutcome,
                          ref: string) returns (record: Record)
    requires MissingToReceive(input).None?
    ensures IsReceivedFor(record, input, clock)
    ensures var after, own := Receive(s, input, clock, kept, outcome).0, record.meta.envelopeRef;
      && (own in kept ==> ReadInbox(after, own) == Returned(record))
      && (ref != own && ref != "" && ref in kept && ref in s.mem.inbox ==>
            ReadInbox(after, ref) == Returned(s.mem.inbox[ref]))
      && (ref != "" && (ref !in kept || (ref != own && ref !in s.mem.inbox)) ==>
            ReadInbox(after, ref) == Rejected(NotReceived(ref)))
      && ReadInbox(after, "") == Rejected(EnvelopeRefRequired)
  {
    var answer := ReceiveAnswers(s, input, clock, kept, outcome);
    record := answer.value;
    EnvelopeRefIsGenerated("inbox", input.idempotencyKey, input.recipientRef, record.envelope.address.senderId, "",
                           clock.nanos);
  }

  // ---------- restart ----------

  /** The file is a version 1 document whose fields all have the kind that a record's own encoding gives them. */
  ghost predicate Loadable(file: FileState) {
    match file.image
    case None => true
    case Some(Malformed) => false
    case Some(Document(version, outbox, inbox)) => version == 1 && KindsFit(outbox) && KindsFit(inbox)
  }

  ghost predicate KindsFit(q: Option<StoredQueue>) {
    q.Some? ==> forall ref, r | ref in q.value :: SameKinds(q.value[ref], r)
  }

  predicate SameKind(a: Scalar, b: Scalar) {
    (a.Text? <==> b.Text?) && (a.Number? <==> b.Number?)
  }

  ghost predicate SameKinds(stored: StoredRecord, r: Record) {
    && (forall f | f in stored.fields :: SameKind(stored.fields[f], MetadataScalar(r.meta, f)))
    && (forall f | f in stored.envelope ::
          SameKind(stored.envelope[f], EnvelopeScalar(r.envelope, f))
          && (stored.envelope[f].Number? ==> stored.envelope[f].number >= 0))
  }

  lemma WellTypedIffKindsFit(stored: StoredRecord, r: Record)
    ensures WellTyped(stored) <==> SameKinds(stored, r)
  {
    forall f: RecordField
      ensures MetadataScalar(r.meta, f).Number? <==> f == CreatedAt || f == ClaimedAt || f == ReceivedAt
      ensures !MetadataScalar(r.meta, f).Blob?
    {}
  }

  lemma QueueWellTypedIffKindsFit(q: Option<StoredQueue>)
    ensures QueueWellTyped(q) <==> KindsFit(q)
  {
    if q.Some? {
      forall ref, r | ref in q.value
        ensures WellTyped(q.value[ref]) <==> SameKinds(q.value[ref], r)
      {
        WellTypedIffKindsFit(q.value[ref], r);
      }
      var any := Record(Envelope(Addressing("", 0, "", 0, ""), []),
                        Metadata("", "", "", "", "", "", "", "", 0, 0, 0, ""));
      assert KindsFit(q) ==> forall ref | ref in q.value :: SameKinds(q.value[ref], any);
    }
  }

  /**
  A restart on a memory backend starts empty; on a file it takes up exactly what
  the file holds, and otherwise is an error that leaves the old store in place.
  */
  lemma RestartAnswers(s: System, cfg: StoreConfig, readable: bool)
    ensures var (after, reply) := Restart(s, cfg, readable);
      && after.file == s.file
      && (!cfg.localFile ==> reply == Reopened && after.cfg == cfg && after.mem == Memory(1, map[], map[]))
      && (cfg.localFile && readable && Loadable(s.file) ==>
            && reply == Reopened && after.cfg == cfg && after.mem.version == 1
            && after.mem.outbox == DiskOutbox(s.file) && after.mem.inbox == DiskInbox(s.file))
      && (cfg.localFile && !(readable && Loadable(s.file)) ==> reply.Rejected? && after == s)
      && (cfg.localFile && !readable ==> reply == Rejected(StorageUnreadable))
      && (cfg.localFile && readable && s.file.image == Some(Malformed) ==> reply == Rejected(UndecodableStorage))
  {
    match s.file.image
    case Some(Document(version, outbox, inbox)) =>
      QueueWellTypedIffKindsFit(outbox);
      QueueWellTypedIffKindsFit(inbox);
    case _ =>
  }

  /** Which fields a stored record has: ref, queue and status always, any other only when it is not empty or zero. */
  lemma ImageDropsZeroFields(r: Record, f: RecordField, g: EnvelopeField)
    ensures f in EncodeRecord(r).fields
       <==> (f in {EnvelopeRefField, QueueField, StatusField}
             || MetadataScalar(r.meta, f) !in {Text(""), Number(0)})
    ensures g in EncodeRecord(r).envelope <==> EnvelopeScalar(r.envelope, g) !in {Text(""), Number(0), Blob([])}
    ensures f in EncodeRecord(r).fields ==> EncodeRecord(r).fields[f] == MetadataScalar(r.meta, f)
    ensures g in EncodeRecord(r).envelope ==> EncodeRecord(r).envelope[g] == EnvelopeScalar(r.envelope, g)
  {
    match f
    case EnvelopeRefField =>
    case _ =>
  }

  /** What a persist leaves in the temporary file: nothing new on success, part or all of the state on a failure. */
  lemma PersistLeavesTemp(cfg: StoreConfig, m: Memory, file: FileState, outcome: PersistOutcome)
    ensures var (after, error) := Persist(cfg, m, file, outcome);
      if !cfg.localFile then after == file && error == None
      else match outcome
        case Persisted => after == FileState(Some(Encode(m)), None) && error == None
        case MkdirFailed => after == file && error == Some(StorageFailed(MkdirFailed))
        case TempWriteFailed =>
          after == FileState(file.image, Some(Malformed)) && error == Some(StorageFailed(TempWriteFailed))
        case RenameFailed =>
          after == FileState(file.image, Some(Encode(m))) && error == Some(StorageFailed(RenameFailed))
  {}

  // ---------- evictions go by the time of arrival ----------

  /** Outbox records have no time of receipt, inbox records no time of creation. */
  ghost predicate Dated(outbox: Queue, inbox: Queue) {
    && (forall ref | ref in outbox :: outbox[ref].meta.receivedAt == 0)
    && (forall ref | ref in inbox :: inbox[ref].meta.createdAt == 0)
  }

  ghost predicate DatedSystem(s: System) {
    Dated(s.mem.outbox, s.mem.inbox) && Dated(DiskOutbox(s.file), DiskInbox(s.file))
  }

  lemma StepStaysDated(s: System, e: Event)
    requires DatedSystem(s)
    ensures DatedSystem(Step(s, e).0)
  {
    StepCommits(s, e);
    if Written(s, e).Some? {
      CommitReachesDisk(s, Written(s, e).value.mem, Written(s, e).value.record, e.outcome);
    } else if e.RestartCall? {
      RestartReadsDisk(s, e.cfg, e.readable);
    }
  }

  lemma {:induction false} RunStaysDated(s: System, es: seq<Event>)
    requires DatedSystem(s)
    ensures DatedSystem(Run(s, es))
    decreases |es|
  {
    if es != [] {
      StepStaysDated(s, es[0]);
      RunStaysDated(Step(s, es[0]).0, es[1..]);
    }
  }

  /** Nobody evicted was created, or received, later than anybody kept. */
  ghost predicate FirstComeFirstGone(q: Queue, kept: set<string>) {
    forall e, k | e in q && e !in kept && k in q && k in kept ::
      && q[e].meta.createdAt <= q[k].meta.createdAt
      && q[e].meta.receivedAt <= q[k].meta.receivedAt
  }

  lemma UndatedCompareByReceipt(q: Queue, kept: set<string>)
    requires kept <= q.Keys
    requires || (forall ref | ref in q :: q[ref].meta.receivedAt == 0)
             || (forall ref | ref in q :: q[ref].meta.createdAt == 0)
    ensures OldestFirst(q, kept) <==> FirstComeFirstGone(q, kept)
  {
    forall e, k | e in q && k in q
      ensures NotNewer(q, e, k)
         <==> (q[e].meta.createdAt <= q[k].meta.createdAt && q[e].meta.receivedAt <= q[k].meta.receivedAt)
    {}
  }

  /**
  In every run from a fresh store: an enqueue evicts those created first, a
  receive those received first, and whatever is kept that way some visiting
  orders keep.
  */
  lemma EvictionsGoByArrival(cfg: StoreConfig, es: seq<Event>, e: Event)
    ensures var now := Run(System(cfg, EMPTY_MEMORY, FileState(None, None)), es);
      Filled(now, e).Some? ==>
        (Lawful(now, e) <==>
           IsExcessDropped(Filled(now, e).value, now.cfg.retentionLimit, e.kept)
           && FirstComeFirstGone(Filled(now, e).value, e.kept))
  {
    var start := System(cfg, EMPTY_MEMORY, FileState(None, None));
    var now := Run(start, es);
    RunStaysDated(start, es);
    RunAddsNoEmptyKey(start, es);
    if Filled(now, e).Some? {
      var q := Filled(now, e).value;
      FilledHasNoEmptyKey(now, e);
      MayKeepExactly(q, now.cfg.retentionLimit, e.kept);
      if IsExcessDropped(q, now.cfg.retentionLimit, e.kept) {
        UndatedCompareByReceipt(q, e.kept);
      }
    }
  }
}
