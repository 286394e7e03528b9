/**
The envelope store over mutable objects: records updated in place, envelopes
and ciphertext buffers copied on the way in and on the way out, a storage file
replaced by write-temp-then-rename. Every method is proved against the state
machine in envelope_values.dfy.
*/
module EnvelopeStores {
  import opened Common
  import opened Refs
  import opened EnvelopeValues
  import opened Retention

  /** The scalar fields of an object are one value; what it points to are objects. */
  class EnvelopeObject {
    var address: Addressing
    var ciphertext: array<byte>

    constructor (e: Envelope)
      ensures Value() == e && fresh(ciphertext)
    {
      address := e.address;
      var buffer := new byte[|e.ciphertext|](i requires 0 <= i < |e.ciphertext| => e.ciphertext[i]);
      ciphertext := buffer;
      new;
      assert buffer[..] == e.ciphertext;
    }

    function Value(): Envelope
      reads this, ciphertext
    {
      Envelope(address, ciphertext[..])
    }

    /** A deep copy: the buffer is new as well. */
    method Clone() returns (copy: EnvelopeObject)
      ensures fresh(copy) && fresh(copy.ciphertext) && copy.Value() == Value()
    {
      copy := new EnvelopeObject(Value());
    }
  }

  class RecordObject {
    var envelope: EnvelopeObject
    var meta: Metadata

    constructor (envelope: EnvelopeObject, meta: Metadata)
      ensures this.envelope == envelope && this.meta == meta
    {
      this.envelope, this.meta := envelope, meta;
    }

    function Value(): Record
      reads this, envelope, envelope.ciphertext
    {
      Record(envelope.Value(), meta)
    }

    method Clone() returns (copy: RecordObject)
      ensures fresh(copy) && fresh(copy.envelope) && fresh(copy.envelope.ciphertext)
      ensures copy.Value() == Value()
    {
      var e := envelope.Clone();
      copy := new RecordObject(e, meta);
    }
  }

  /** The storage path and its temporary neighbour. */
  class StorageFile {
    var image: Option<Image>
    var temp: Option<Image>

    function State(): FileState
      reads this
    {
      FileState(image, temp)
    }
  }

  /** A submitted request; the envelope belongs to the caller. */
  datatype EnqueueRequest = EnqueueRequest(
    envelope: EnvelopeObject?, messageRef: string, senderRef: string, recipientRef: string,
    custodyRef: string, authzRef: string, idempotencyKey: string, requestedAt: int)
  {
    function Input(): EnqueueInput
      reads envelope, if envelope == null then {} else {envelope.ciphertext}
    {
      EnqueueInput(if envelope == null then None else Some(envelope.Value()),
                   messageRef, senderRef, recipientRef, custodyRef, authzRef, idempotencyKey, requestedAt)
    }
  }

  datatype ReceiveRequest = ReceiveRequest(
    envelope: EnvelopeObject?, envelopeRef: string, recipientRef: string, idempotencyKey: string, requestedAt: int)
  {
    function Input(): ReceiveInput
      reads envelope, if envelope == null then {} else {envelope.ciphertext}
    {
      ReceiveInput(if envelope == null then None else Some(envelope.Value()),
                   envelopeRef, recipientRef, idempotencyKey, requestedAt)
    }
  }

  type Records = map<string, RecordObject>

  /** The place a record occupies: one of the two queues, under a key. */
  datatype Slot = Slot(inOutbox: bool, ref: string)

  /** The objects behind the queues, and the one place each record occupies. */
  datatype Footprint = Footprint(owned: set<object>, slots: map<RecordObject, Slot>) {

    /** The objects of `q` are in this footprint, each in its slot, and amount to `v`. */
    ghost predicate Represents(q: Records, v: Queue, inOutbox: bool)
      reads owned
    {
      && q.Keys == v.Keys
      && forall ref | ref in q ::
           && q[ref] in owned && q[ref].envelope in owned && q[ref].envelope.ciphertext in owned
           && q[ref] in slots && slots[q[ref]] == Slot(inOutbox, ref)
           && q[ref].Value() == v[ref]
    }

    ghost function Adopt(record: RecordObject, slot: Slot): Footprint
      reads record, record.envelope
    {
      Footprint(owned + {record, record.envelope, record.envelope.ciphertext}, slots[record := slot])
    }

    /** Adopting a record that is not owned yet disturbs no queue. */
    lemma AdoptKeeps(record: RecordObject, slot: Slot, q: Records, v: Queue, inOutbox: bool)
      requires Represents(q, v, inOutbox) && record !in owned
      ensures Adopt(record, slot).Represents(q, v, inOutbox)
    {}

    /** A footprint that grows without moving anyone still represents what it did. */
    lemma GrowthKeeps(g: Footprint, q: Records, v: Queue, inOutbox: bool)
      requires Represents(q, v, inOutbox)
      requires owned <= g.owned && forall o | o in slots && o in owned :: o in g.slots && g.slots[o] == slots[o]
      ensures g.Represents(q, v, inOutbox)
    {}

    lemma EvictionKeeps(q: Records, v: Queue, inOutbox: bool, ref: string)
      requires Represents(q, v, inOutbox) && ref in q
      ensures Represents(q - {ref}, v - {ref}, inOutbox)
      ensures |q - {ref}| == |q| - 1
    {
      var left := q - {ref};
      assert left.Keys == q.Keys - {ref} && |left.Keys| == |left| && |q.Keys| == |q|;
    }

    lemma AdoptExtends(record: RecordObject, ref: string, q: Records, v: Queue, inOutbox: bool)
      requires Represents(q, v, inOutbox) && record !in owned
      ensures Adopt(record, Slot(inOutbox, ref)).Represents(q[ref := record], v[ref := record.Value()], inOutbox)
    {
      AdoptKeeps(record, Slot(inOutbox, ref), q, v, inOutbox);
    }
  }

  class EnvelopeStore {
    const cfg: StoreConfig
    const file: StorageFile
    var version: nat
    var outbox: Records
    var inbox: Records
    ghost var footprint: Footprint
    ghost var contents: Memory  // what the objects amount to

    ghost predicate Valid()
      reads this, footprint.owned
    {
      && this !in footprint.owned && file !in footprint.owned
      && version == contents.version
      && footprint.Represents(outbox, contents.outbox, true)
      && footprint.Represents(inbox, contents.inbox, false)
    }

    ghost function State(): System
      reads this, file
    {
      System(cfg, contents, file.State())
    }

    /** A store on a path, around the objects of a freshly made or loaded state. */
    constructor (cfg: StoreConfig, file: StorageFile, version: nat, outbox: Records, inbox: Records,
                 ghost contents: Memory, ghost footprint: Footprint)
      requires file !in footprint.owned && version == contents.version
      requires footprint.Represents(outbox, contents.outbox, true)
      requires footprint.Represents(inbox, contents.inbox, false)
      ensures Valid() && this.contents == contents && this.footprint == footprint
      ensures this.cfg == cfg && this.file == file
    {
      this.cfg, this.file := cfg, file;
      this.version, this.outbox, this.inbox := version, outbox, inbox;
      this.contents, this.footprint := contents, footprint;
    }

    /** One scan of the map, in any order. */
    static method FindOldest(left: Records, ghost rest: Queue, ghost f: Footprint, ghost inOutbox: bool)
      returns (oldestRef: string)
      requires f.Represents(left, rest, inOutbox)
      ensures CanFind(rest, oldestRef)
    {
      var oldest := 0;
      var pending := left.Keys;
      ghost var order := [];
      oldestRef := "";
      while pending != {}
        invariant pending <= left.Keys
        invariant forall r :: r in order <==> r in left.Keys && r !in pending
        invariant forall i, j | 0 <= i < j < |order| :: order[i] != order[j]
        invariant Best(oldestRef, oldest) == Scan(rest, order)
        decreases pending
      {
        var ref :| ref in pending;
        var ts := left[ref].meta.createdAt;
        if ts == 0 {
          ts := left[ref].meta.receivedAt;
        }
        assert rest[ref] == left[ref].Value();
        if oldestRef == "" || ts < oldest {
          oldestRef, oldest := ref, ts;
        }
        assert (order + [ref])[..|order|] == order;
        order := order + [ref];
        pending := pending - {ref};
      }
      assert IsOrder(rest, order);
    }

    /** Scans for the oldest record and deletes it, again and again until the limit holds. */
    method EnforceRetention(q: Records, ghost v: Queue, ghost f: Footprint, ghost inOutbox: bool)
      returns (left: Records)
      requires f.Represents(q, v, inOutbox)
      ensures f.Represents(left, Retain(v, left.Keys), inOutbox)
      ensures MayKeep(v, cfg.retentionLimit, left.Keys)
    {
      var limit := cfg.retentionLimit;
      left := q;
      ghost var rest := v;
      assert |v| == |v.Keys| && |q| == |q.Keys|;
      assert Retain(v, q.Keys) == v;
      if limit == 0 || |q| <= limit {
        return;
      }
      while |left| > limit
        invariant limit <= |left| == |rest|
        invariant rest == Retain(v, left.Keys)
        invariant f.Represents(left, rest, inOutbox)
        invariant forall kept | MayKeep(rest, limit, kept) :: MayKeep(v, limit, kept)
        decreases |left|
      {
        var oldestRef := FindOldest(left, rest, f, inOutbox);
        OneScan(rest, limit, oldestRef);
        f.EvictionKeeps(left, rest, inOutbox, oldestRef);
        RetainLess(v, left.Keys, oldestRef);
        ghost var keys := left.Keys;
        left, rest := left - {oldestRef}, rest - {oldestRef};
        assert left.Keys == keys - {oldestRef};
      }
    }

    /** The bytes of the whole state. */
    method Marshal() returns (raw: Image)
      requires Valid()
      ensures raw == Encode(contents)
    {
      var outgoing := map ref | ref in outbox :: outbox[ref].Value();
      var incoming := map ref | ref in inbox :: inbox[ref].Value();
      assert outgoing == contents.outbox && incoming == contents.inbox;
      raw := Encode(Memory(version, outgoing, incoming));
    }

    /** Writes the whole state to the temporary path, then renames it over the storage path. */
    method Persist(outcome: PersistOutcome) returns (error: Option<Error>)
      requires Valid()
      modifies file
      ensures (file.State(), error) == EnvelopeValues.Persist(cfg, contents, old(file.State()), outcome)
    {
      if !cfg.localFile {
        return None;
      }
      var raw := Marshal();
      if outcome.MkdirFailed? {
        return Some(StorageFailed(outcome));
      }
      file.temp := Some(Malformed);
      if outcome.TempWriteFailed? {
        return Some(StorageFailed(outcome));
      }
      file.temp := Some(raw);
      if outcome.RenameFailed? {
        return Some(StorageFailed(outcome));
      }
      file.image, file.temp := file.temp, None;
      return None;
    }

    /** `r` shares no object with the store: callers may do what they like with it. */
    ghost predicate Detached(r: RecordObject)
      reads this, r, r.envelope
    {
      r !in footprint.owned && r.envelope !in footprint.owned && r.envelope.ciphertext !in footprint.owned
    }

    lemma AdoptedRepresents(inOutbox: bool, ref: string, record: RecordObject)
      requires Valid() && Detached(record)
      ensures var f := footprint.Adopt(record, Slot(inOutbox, ref));
        && this !in f.owned && file !in f.owned
        && f.Represents((if inOutbox then outbox else inbox)[ref := record],
                        QueueOf(contents, inOutbox)[ref := record.Value()], inOutbox)
        && f.Represents(if inOutbox then inbox else outbox, QueueOf(contents, !inOutbox), !inOutbox)
    {
      footprint.AdoptExtends(record, ref, if inOutbox then outbox else inbox, QueueOf(contents, inOutbox), inOutbox);
      footprint.AdoptKeeps(record, Slot(inOutbox, ref), if inOutbox then inbox else outbox,
                           QueueOf(contents, !inOutbox), !inOutbox);
    }

    /** Brings the ghost view up to date with the objects. */
    ghost method Settle(m: Memory, f: Footprint)
      requires version == m.version && this !in f.owned && file !in f.owned
      requires f.Represents(outbox, m.outbox, true) && f.Represents(inbox, m.inbox, false)
      modifies this`contents, this`footprint
      ensures Valid() && contents == m && footprint == f
    {
      contents, footprint := m, f;
    }

    method ReplaceOutbox(left: Records, ghost values: Queue, ghost f: Footprint)
      requires version == contents.version && this !in f.owned && file !in f.owned
      requires f.Represents(left, values, true) && f.Represents(inbox, contents.inbox, false)
      modifies this
      ensures Valid() && footprint == f && contents == old(contents).(outbox := values)
    {
      outbox := left;
      Settle(contents.(outbox := values), f);
    }

    method ReplaceInbox(left: Records, ghost values: Queue, ghost f: Footprint)
      requires version == contents.version && this !in f.owned && file !in f.owned
      requires f.Represents(outbox, contents.outbox, true) && f.Represents(left, values, false)
      modifies this
      ensures Valid() && footprint == f && contents == old(contents).(inbox := values)
    {
      inbox := left;
      Settle(contents.(inbox := values), f);
    }

    /** Puts a new record into one of the queues and evicts from it. */
    method Insert(inOutbox: bool, ref: string, record: RecordObject, ghost value: Record)
      returns (ghost kept: set<string>)
      requires Valid() && Detached(record) && value == record.Value()
      modifies this
      ensures Valid() && footprint == old(footprint.Adopt(record, Slot(inOutbox, ref)))
      ensures var queue := QueueOf(old(contents), inOutbox)[ref := value];
        && MayKeep(queue, cfg.retentionLimit, kept)
        && contents == WithQueue(old(contents), inOutbox, Retain(queue, kept))
    {
      ghost var f := footprint.Adopt(record, Slot(inOutbox, ref));
      ghost var values := QueueOf(contents, inOutbox)[ref := value];
      var queue := if inOutbox then outbox else inbox;
      AdoptedRepresents(inOutbox, ref, record);
      var left := EnforceRetention(queue[ref := record], values, f, inOutbox);
      kept := left.Keys;
      if inOutbox {
        ReplaceOutbox(left, Retain(values, kept), f);
      } else {
        ReplaceInbox(left, Retain(values, kept), f);
      }
    }

    /** Persists what a method just did to memory and answers with a deep copy of the record. */
    method Finish(record: RecordObject, outcome: PersistOutcome) returns (r: Result<RecordObject, Error>)
      requires Valid() && record in footprint.owned && record.envelope in footprint.owned
      modifies file
      ensures Valid()
      ensures r.Ok? ==> fresh(r.value) && fresh(r.value.envelope) && fresh(r.value.envelope.ciphertext)
      ensures var (file', error) := EnvelopeValues.Persist(cfg, contents, old(file.State()), outcome);
        && file.State() == file'
        && ReplyOf(r) == if error.Some? then Rejected(error.value) else Returned(old(record.Value()))
    {
      var error := Persist(outcome);
      if error.Some? {
        return Err(error.value);
      }
      var copy := record.Clone();
      r := Ok(copy);
    }

    method NewRecord(envelope: EnvelopeObject, meta: Metadata) returns (record: RecordObject)
      ensures fresh(record) && fresh(record.envelope) && fresh(record.envelope.ciphertext)
      ensures record.Value() == Record(old(envelope.Value()), meta)
    {
      var e := envelope.Clone();
      record := new RecordObject(e, meta);
    }

    method Store(inOutbox: bool, ref: string, record: RecordObject, ghost value: Record, outcome: PersistOutcome)
      returns (r: Result<RecordObject, Error>, ghost kept: set<string>)
      requires Valid() && Detached(record) && value == record.Value()
      modifies this, file
      ensures Valid() && footprint == old(footprint.Adopt(record, Slot(inOutbox, ref)))
      ensures r.Ok? ==> fresh(r.value) && fresh(r.value.envelope) && fresh(r.value.envelope.ciphertext)
      ensures r.Ok? ==> Detached(r.value)
      ensures var queue := QueueOf(old(contents), inOutbox)[ref := value];
        && MayKeep(queue, cfg.retentionLimit, kept)
        && Commit(old(State()), WithQueue(old(contents), inOutbox, Retain(queue, kept)), value, outcome)
             == (State(), ReplyOf(r))
    {
      kept := Insert(inOutbox, ref, record, value);
      r := Finish(record, outcome);
    }

    method AdmitEnqueue(request: EnqueueRequest) returns (problem: Option<Error>)
      ensures problem == CheckEnqueue(request.Input())
    {
      if request.envelope == null {
        return Some(EnvelopeRequired);
      }
      if request.envelope.ciphertext.Length == 0 {
        return Some(CiphertextRequired);
      }
      if request.custodyRef == "" {
        return Some(CustodyRefRequired);
      }
      if request.authzRef == "" {
        return Some(AuthzRefRequired);
      }
      if request.senderRef == "" {
        return Some(SenderRefRequired);
      }
      if request.recipientRef == "" {
        return Some(RecipientRefRequired);
      }
      if request.idempotencyKey == "" && request.messageRef == "" {
        return Some(KeyOrMessageRefRequired);
      }
      return None;
    }

    method AdmitReceive(request: ReceiveRequest) returns (problem: Option<Error>)
      ensures problem == CheckReceive(request.Input())
    {
      if request.envelope == null {
        return Some(EnvelopeRequired);
      }
      if request.envelope.ciphertext.Length == 0 {
        return Some(CiphertextRequired);
      }
      return None;
    }

    method Enqueue(request: EnqueueRequest, clock: Clock, outcome: PersistOutcome)
      returns (r: Result<RecordObject, Error>, ghost kept: set<string>)
      requires Valid()
      modifies this, file
      ensures Valid() && old(footprint.owned) <= footprint.owned
      ensures forall o | o in footprint.owned :: o in old(footprint.owned) || fresh(o)
      ensures r.Ok? ==> fresh(r.value) && fresh(r.value.envelope) && fresh(r.value.envelope.ciphertext)
      ensures r.Ok? ==> Detached(r.value)
      ensures var input := old(request.Input());
        && EnvelopeValues.Enqueue(old(State()), input, clock, kept, outcome) == (State(), ReplyOf(r))
        && (CheckEnqueue(input).None? ==>
              var record := EnqueuedRecord(input, clock);
              var queue := old(contents).outbox[record.meta.envelopeRef := record];
              MayKeep(queue, cfg.retentionLimit, kept))
    {
      var problem := AdmitEnqueue(request);
      if problem.Some? {
        return Err(problem.value), {};
      }
      var ref := EnvelopeRef("outbox", request.idempotencyKey, request.senderRef, request.recipientRef,
                             request.messageRef, clock.nanos);
      var meta := Metadata(ref, "outbox", "queued", request.senderRef, request.recipientRef, request.custodyRef,
                           request.authzRef, request.messageRef, UnixTime(request.requestedAt, clock), 0, 0, "");
      var record := NewRecord(request.envelope, meta);
      ghost var parts: set<object>, before := {record, record.envelope, record.envelope.ciphertext}, footprint.owned;
      assert forall o | o in parts :: fresh(o);
      r, kept := Store(true, ref, record, record.Value(), outcome);
      assert footprint.owned == before + parts;
    }

    method Receive(request: ReceiveRequest, clock: Clock, outcome: PersistOutcome)
      returns (r: Result<RecordObject, Error>, ghost kept: set<string>)
      requires Valid()
      modifies this, file
      ensures Valid() && old(footprint.owned) <= footprint.owned
      ensures forall o | o in footprint.owned :: o in old(footprint.owned) || fresh(o)
      ensures r.Ok? ==> fresh(r.value) && fresh(r.value.envelope) && fresh(r.value.envelope.ciphertext)
      ensures r.Ok? ==> Detached(r.value)
      ensures var input := old(request.Input());
        && EnvelopeValues.Receive(old(State()), input, clock, kept, outcome) == (State(), ReplyOf(r))
        && (CheckReceive(input).None? ==>
              var record := ReceivedRecord(input, clock);
              var queue := old(contents).inbox[record.meta.envelopeRef := record];
              MayKeep(queue, cfg.retentionLimit, kept))
    {
      var problem := AdmitReceive(request);
      if problem.Some? {
        return Err(problem.value), {};
      }
      var sender := request.envelope.address.senderId;
      var ref := FirstNonEmpty(request.envelopeRef,
                               EnvelopeRef("inbox", request.idempotencyKey, request.recipientRef, sender, "",
                                           clock.nanos));
      var meta := Metadata(ref, "inbox", "received", "", request.recipientRef, "", "", "", 0, 0,
                           UnixTime(request.requestedAt, clock), "");
      var record := NewRecord(request.envelope, meta);
      ghost var parts: set<object>, before := {record, record.envelope, record.envelope.ciphertext}, footprint.owned;
      assert forall o | o in parts :: fresh(o);
      r, kept := Store(false, ref, record, record.Value(), outcome);
      assert footprint.owned == before + parts;
    }

    static method NewValue(r: Record) returns (record: RecordObject)
      ensures fresh(record) && fresh(record.envelope) && fresh(record.envelope.ciphertext)
      ensures record.Value() == r
    {
      var e := new EnvelopeObject(r.envelope);
      record := new RecordObject(e, r.meta);
    }

    static method ThawOne(stored: Queue, inOutbox: bool, ref: string, some: Records, ghost f: Footprint)
      returns (more: Records, ghost g: Footprint)
      requires ref in stored && f.Represents(some, Retain(stored, some.Keys), inOutbox)
      ensures more.Keys == some.Keys + {ref}
      ensures g.Represents(more, Retain(stored, more.Keys), inOutbox)
      ensures f.owned <= g.owned && forall o | o in g.owned :: o in f.owned || fresh(o)
      ensures forall o | o in f.slots && o in f.owned :: o in g.slots && g.slots[o] == f.slots[o]
    {
      var record := NewValue(stored[ref]);
      f.AdoptExtends(record, ref, some, Retain(stored, some.Keys), inOutbox);
      g := f.Adopt(record, Slot(inOutbox, ref));
      more := some[ref := record];
      assert Retain(stored, more.Keys) == Retain(stored, some.Keys)[ref := stored[ref]];
    }

    /** Fresh objects for the values of one stored queue. */
    static method Thaw(stored: Queue, inOutbox: bool, ghost f: Footprint) returns (records: Records, ghost g: Footprint)
      ensures g.Represents(records, stored, inOutbox)
      ensures f.owned <= g.owned && forall o | o in g.owned :: o in f.owned || fresh(o)
      ensures forall o | o in f.slots && o in f.owned :: o in g.slots && g.slots[o] == f.slots[o]
    {
      records, g := map[], f;
      var pending := stored.Keys;
      while pending != {}
        invariant pending <= stored.Keys && records.Keys == stored.Keys - pending
        invariant g.Represents(records, Retain(stored, records.Keys), inOutbox)
        invariant f.owned <= g.owned && forall o | o in g.owned :: o in f.owned || fresh(o)
        invariant forall o | o in f.slots && o in f.owned :: o in g.slots && g.slots[o] == f.slots[o]
        decreases pending
      {
        var ref :| ref in pending;
        records, g := ThawOne(stored, inOutbox, ref, records, g);
        pending := pending - {ref};
      }
      assert Retain(stored, records.Keys) == stored;
    }

    /** Updates the metadata of one stored outbox record in place; no other record moves. */
    static method Mark(record: RecordObject, meta: Metadata, ghost f: Footprint, ghost ref: string,
                       ghost outgoing: Records, ghost outV: Queue, ghost incoming: Records, ghost inV: Queue)
      requires f.Represents(outgoing, outV, true) && f.Represents(incoming, inV, false)
      requires ref in outgoing && outgoing[ref] == record
      modifies record`meta
      ensures f.Represents(outgoing, outV[ref := Record(outV[ref].envelope, meta)], true)
      ensures f.Represents(incoming, inV, false)
    {
      record.meta := meta;
    }

    method MarkClaimed(record: RecordObject, input: ClaimInput, clock: Clock)
      requires Valid() && input.envelopeRef in outbox && outbox[input.envelopeRef] == record
      modifies record`meta, this`contents, this`footprint
      ensures Valid() && footprint == old(footprint)
      ensures var claimed := Claimed(old(contents).outbox[input.envelopeRef], input, clock);
        && record.Value() == claimed
        && contents == old(contents).(outbox := old(contents).outbox[input.envelopeRef := claimed])
    {
      ghost var claimed := Claimed(contents.outbox[input.envelopeRef], input, clock);
      ghost var values := contents.outbox[input.envelopeRef := claimed];
      Mark(record, ClaimedMetadata(record.meta, input, clock), footprint, input.envelopeRef,
           outbox, contents.outbox, inbox, contents.inbox);
      Settle(contents.(outbox := values), footprint);
    }

    method Claim(input: ClaimInput, clock: Clock, outcome: PersistOutcome) returns (r: Result<RecordObject, Error>)
      requires Valid()
      modifies footprint.owned, this`contents, this`footprint, file
      ensures Valid() && footprint == old(footprint)
      ensures r.Ok? ==> fresh(r.value) && fresh(r.value.envelope) && fresh(r.value.envelope.ciphertext)
      ensures EnvelopeValues.Claim(old(State()), input, clock, outcome) == (State(), ReplyOf(r))
    {
      if input.envelopeRef == "" {
        return Err(EnvelopeRefRequired);
      }
      if input.claimantRef == "" {
        return Err(ClaimantRefRequired);
      }
      if input.envelopeRef !in outbox {
        return Err(NotQueued(input.envelopeRef));
      }
      var record := outbox[input.envelopeRef];
      assert record.Value() == contents.outbox[input.envelopeRef];
      if record.meta.status != "queued" {
        return Err(Already(input.envelopeRef, record.meta.status));
      }
      MarkClaimed(record, input, clock);
      r := Finish(record, outcome);
    }

    method Inbox(ref: string) returns (r: Result<RecordObject, Error>)
      requires Valid()
      ensures r.Ok? ==> fresh(r.value) && fresh(r.value.envelope) && fresh(r.value.envelope.ciphertext)
      ensures ReplyOf(r) == ReadInbox(State(), ref)
    {
      if ref == "" {
        return Err(EnvelopeRefRequired);
      }
      if ref !in inbox {
        return Err(NotReceived(ref));
      }
      var copy := inbox[ref].Clone();
      r := Ok(copy);
    }

    /** Init: a store for this path, loaded from it when the backend is a file. */
    static method Open(cfg: StoreConfig, file: StorageFile, readable: bool) returns (r: Result<EnvelopeStore, Error>)
      ensures var (next, reply) := Restart(System(cfg, EMPTY_MEMORY, file.State()), cfg, readable);
        match r
        case Ok(store) =>
          && fresh(store) && store.Valid() && store.file == file
          && (forall o | o in store.footprint.owned :: fresh(o))
          && reply == Reopened && store.State() == next
        case Err(e) => reply == Rejected(e)
    {
      var m := EMPTY_MEMORY;
      if cfg.localFile {
        var loaded := Load(file.State(), readable);
        if loaded.Err? {
          return Err(loaded.error);
        }
        m := loaded.value;
      }
      var outgoing, f := Thaw(m.outbox, true, Footprint({}, map[]));
      var incoming, g := Thaw(m.inbox, false, f);
      f.GrowthKeeps(g, outgoing, m.outbox, true);
      var store := new EnvelopeStore(cfg, file, m.version, outgoing, incoming, m, g);
      r := Ok(store);
    }
  }

  type Stores = map<string, EnvelopeStore>

  /** A store is registered under its module name, and under its store ref when it has one. */
  function Registered(stores: Stores, name: string, storeRef: string, store: EnvelopeStore): Stores {
    if storeRef == "" then stores[name := store] else stores[name := store][storeRef := store]
  }

  /** Under both names the new store is found, and under any other what was there before. */
  lemma RegisteredIsFound(stores: Stores, name: string, storeRef: string, store: EnvelopeStore, other: string)
    ensures var after := Registered(stores, name, storeRef, store);
      if other == name || (other == storeRef && storeRef != "") then other in after && after[other] == store
      else (other in after <==> other in stores) && (other in stores ==> after[other] == stores[other])
  {}

  class StoreTable {
    var stores: Stores

    /** Init registers the store it opened, or leaves the table, and any older store in it, alone. */
    method Init(name: string, storeRef: string, cfg: StoreConfig, file: StorageFile, readable: bool)
      returns (r: Result<EnvelopeStore, Error>)
      modifies this
      ensures var (next, reply) := Restart(System(cfg, EMPTY_MEMORY, file.State()), cfg, readable);
        match r
        case Ok(store) =>
          && fresh(store) && store.Valid() && store.file == file
          && (forall o | o in store.footprint.owned :: fresh(o))
          && reply == Reopened && store.State() == next
          && stores == Registered(old(stores), name, storeRef, store)
        case Err(e) => reply == Rejected(e) && stores == old(stores)
    {
      r := EnvelopeStore.Open(cfg, file, readable);
      if r.Ok? {
        stores := stores[name := r.value];
        if storeRef != "" {
          stores := stores[storeRef := r.value];
        }
      }
    }
  }

  ghost function ReplyOf(r: Result<RecordObject, Error>): Reply
    reads if r.Ok? then {r.value, r.value.envelope, r.value.envelope.ciphertext} else {}
  {
    match r
    case Ok(record) => Returned(record.Value())
    case Err(e) => Rejected(e)
  }

  /** Overwrites everything that can be reached from an envelope. */
  method Scribble(e: EnvelopeObject, address: Addressing, noise: byte)
    modifies e, e.ciphertext
  {
    e.address := address;
    forall i | 0 <= i < e.ciphertext.Length {
      e.ciphertext[i] := noise;
    }
  }

  /**
  Isolation: once a call has returned, overwriting an object that was outside
  the store before the call, or one that the call handed out, leaves the store
  holding exactly what it held.
  */
  method ScribbleOutside(store: EnvelopeStore, r: RecordObject, e: EnvelopeObject, meta: Metadata,
                         address: Addressing, noise: byte)
    requires store.Valid() && r !in store.footprint.owned
    requires e !in store.footprint.owned && e.ciphertext !in store.footprint.owned
    modifies r, e, e.ciphertext
    ensures store.Valid() && store.State() == old(store.State())
  {
    r.meta := meta;
    Scribble(e, address, noise);
  }

  /** On the way in: the caller reuses the envelope it submitted. */
  method EnqueueThenScribble(store: EnvelopeStore, request: EnqueueRequest, clock: Clock, outcome: PersistOutcome,
                             address: Addressing, noise: byte)
    returns (r: Result<RecordObject, Error>, ghost kept: set<string>)
    requires store.Valid() && request.envelope != null
    requires request.envelope !in store.footprint.owned && request.envelope.ciphertext !in store.footprint.owned
    modifies store, store.file, request.envelope, request.envelope.ciphertext
    ensures store.Valid()
    ensures EnvelopeValues.Enqueue(old(store.State()), old(request.Input()), clock, kept, outcome)
         == (store.State(), ReplyOf(r))
  {
    r, kept := store.Enqueue(request, clock, outcome);
    Scribble(request.envelope, address, noise);
  }

  /** On the way out: the claimant overwrites the record it was handed. */
  method ClaimThenScribble(store: EnvelopeStore, input: ClaimInput, clock: Clock, outcome: PersistOutcome,
                           meta: Metadata, address: Addressing, noise: byte)
    requires store.Valid()
    modifies store.footprint.owned, store`contents, store`footprint, store.file
    ensures store.Valid()
    ensures store.State() == EnvelopeValues.Claim(old(store.State()), input, clock, outcome).0
  {
    var r := store.Claim(input, clock, outcome);
    if r.Ok? {
      ScribbleOutside(store, r.value, r.value.envelope, meta, address, noise);
    }
  }
}
