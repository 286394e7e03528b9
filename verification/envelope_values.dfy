/**
The envelope store as a state machine over values: the queues in memory, the
image on disk, and one function for each operation. The class in
envelope_store.dfy is proved against these functions.
*/
module EnvelopeValues {
  import opened Common
  import opened Refs

  // ---------- entities ----------

  datatype Addressing = Addressing(
    senderId: string, senderDeviceId: nat,
    recipientId: string, recipientDeviceId: nat, messageType: string)

  datatype Envelope = Envelope(address: Addressing, ciphertext: seq<byte>)

  datatype Metadata = Metadata(
    envelopeRef: string, queue: string, status: string,
    senderRef: string, recipientRef: string, custodyRef: string, authzRef: string, messageRef: string,
    createdAt: int, claimedAt: int, receivedAt: int, leaseRef: string)

  datatype Record = Record(envelope: Envelope, meta: Metadata)

  type Queue = map<string, Record>

  /** What the store holds in memory. */
  datatype Memory = Memory(version: nat, outbox: Queue, inbox: Queue)

  function QueueOf(m: Memory, inOutbox: bool): Queue {
    if inOutbox then m.outbox else m.inbox
  }

  function WithQueue(m: Memory, inOutbox: bool, q: Queue): Memory {
    if inOutbox then m.(outbox := q) else m.(inbox := q)
  }

  const EMPTY_MEMORY := Memory(1, map[], map[])

  datatype StoreConfig = StoreConfig(localFile: bool, retentionLimit: nat)

  // ---------- the JSON image: zero-valued omitempty fields are absent ----------

  datatype Scalar = Text(text: string) | Number(number: int) | Blob(blob: seq<byte>) {
    predicate IsZero() {
      match this
      case Text(t) => t == ""
      case Number(n) => n == 0
      case Blob(b) => b == []
    }
  }

  datatype EnvelopeField = SenderId | SenderDeviceId | RecipientId | RecipientDeviceId | MessageType | Ciphertext

  datatype RecordField =
    | EnvelopeRefField | QueueField | StatusField | SenderRef | RecipientRef | CustodyRef | AuthzRef
    | MessageRef | CreatedAt | ClaimedAt | ReceivedAt | LeaseRef

  /** Only these three record fields are written even when empty. */
  predicate AlwaysWritten(f: RecordField) {
    f == EnvelopeRefField || f == QueueField || f == StatusField
  }

  datatype StoredRecord = StoredRecord(envelope: map<EnvelopeField, Scalar>, fields: map<RecordField, Scalar>)

  function EnvelopeScalar(e: Envelope, f: EnvelopeField): Scalar {
    match f
    case SenderId => Text(e.address.senderId)
    case SenderDeviceId => Number(e.address.senderDeviceId)
    case RecipientId => Text(e.address.recipientId)
    case RecipientDeviceId => Number(e.address.recipientDeviceId)
    case MessageType => Text(e.address.messageType)
    case Ciphertext => Blob(e.ciphertext)
  }

  function MetadataScalar(r: Metadata, f: RecordField): Scalar {
    match f
    case EnvelopeRefField => Text(r.envelopeRef)
    case QueueField => Text(r.queue)
    case StatusField => Text(r.status)
    case SenderRef => Text(r.senderRef)
    case RecipientRef => Text(r.recipientRef)
    case CustodyRef => Text(r.custodyRef)
    case AuthzRef => Text(r.authzRef)
    case MessageRef => Text(r.messageRef)
    case CreatedAt => Number(r.createdAt)
    case ClaimedAt => Number(r.claimedAt)
    case ReceivedAt => Number(r.receivedAt)
    case LeaseRef => Text(r.leaseRef)
  }

  function EncodeEnvelope(e: Envelope): map<EnvelopeField, Scalar> {
    map f: EnvelopeField | !EnvelopeScalar(e, f).IsZero() :: EnvelopeScalar(e, f)
  }

  function EncodeMetadata(r: Metadata): map<RecordField, Scalar> {
    map f: RecordField | AlwaysWritten(f) || !MetadataScalar(r, f).IsZero() :: MetadataScalar(r, f)
  }

  function EncodeRecord(r: Record): StoredRecord {
    StoredRecord(EncodeEnvelope(r.envelope), EncodeMetadata(r.meta))
  }

  function TextAt<F(==)>(m: map<F, Scalar>, f: F): string {
    if f in m && m[f].Text? then m[f].text else ""
  }

  function NumberAt<F(==)>(m: map<F, Scalar>, f: F): int {
    if f in m && m[f].Number? then m[f].number else 0
  }

  function NaturalAt<F(==)>(m: map<F, Scalar>, f: F): nat {
    if NumberAt(m, f) < 0 then 0 else NumberAt(m, f)
  }

  function BlobAt<F(==)>(m: map<F, Scalar>, f: F): seq<byte> {
    if f in m && m[f].Blob? then m[f].blob else []
  }

  function DecodeEnvelope(m: map<EnvelopeField, Scalar>): Envelope {
    Envelope(
      Addressing(TextAt(m, SenderId), NaturalAt(m, SenderDeviceId), TextAt(m, RecipientId),
                 NaturalAt(m, RecipientDeviceId), TextAt(m, MessageType)),
      BlobAt(m, Ciphertext))
  }

  function DecodeMetadata(m: map<RecordField, Scalar>): Metadata {
    Metadata(
      TextAt(m, EnvelopeRefField), TextAt(m, QueueField), TextAt(m, StatusField), TextAt(m, SenderRef),
      TextAt(m, RecipientRef), TextAt(m, CustodyRef), TextAt(m, AuthzRef), TextAt(m, MessageRef),
      NumberAt(m, CreatedAt), NumberAt(m, ClaimedAt), NumberAt(m, ReceivedAt), TextAt(m, LeaseRef))
  }

  function DecodeRecord(s: StoredRecord): Record {
    Record(DecodeEnvelope(s.envelope), DecodeMetadata(s.fields))
  }

  /** Every field present holds a value of its own JSON kind, as the decoder demands. */
  predicate WellTyped(s: StoredRecord) {
    && (forall f | f in s.envelope ::
          match f
          case SenderDeviceId => s.envelope[f].Number? && s.envelope[f].number >= 0
          case RecipientDeviceId => s.envelope[f].Number? && s.envelope[f].number >= 0
          case Ciphertext => s.envelope[f].Blob?
          case _ => s.envelope[f].Text?)
    && (forall f | f in s.fields ::
          if f == CreatedAt || f == ClaimedAt || f == ReceivedAt then s.fields[f].Number? else s.fields[f].Text?)
  }

  type StoredQueue = map<string, StoredRecord>

  /** A storage file: bytes that do not decode, or a document; a null queue is None. */
  datatype Image = Malformed | Document(version: nat, outbox: Option<StoredQueue>, inbox: Option<StoredQueue>)

  function EncodeQueue(q: Queue): StoredQueue {
    map ref | ref in q :: EncodeRecord(q[ref])
  }

  function DecodeQueue(q: Option<StoredQueue>): Queue {
    match q
    case None => map[]
    case Some(s) => map ref | ref in s :: DecodeRecord(s[ref])
  }

  predicate QueueWellTyped(q: Option<StoredQueue>) {
    q.Some? ==> forall ref | ref in q.value :: WellTyped(q.value[ref])
  }

  function Encode(m: Memory): Image {
    Document(m.version, Some(EncodeQueue(m.outbox)), Some(EncodeQueue(m.inbox)))
  }

  // ---------- storage ----------

  /** The storage path and its ".tmp" neighbour; None means the file does not exist. */
  datatype FileState = FileState(image: Option<Image>, temp: Option<Image>)

  /** How far one persist gets. */
  datatype PersistOutcome = Persisted | MkdirFailed | TempWriteFailed | RenameFailed

  datatype Error =
    | EnvelopeRequired | CiphertextRequired | CustodyRefRequired | AuthzRefRequired
    | SenderRefRequired | RecipientRefRequired | KeyOrMessageRefRequired
    | EnvelopeRefRequired | ClaimantRefRequired
    | NotQueued(ref: string) | Already(ref: string, status: string) | NotReceived(ref: string)
    | StorageFailed(outcome: PersistOutcome) | StorageUnreadable | UndecodableStorage | UnsupportedVersion(version: nat)

  /** A read that fails for another reason than a missing file is an error of its own. */
  function Load(file: FileState, readable: bool): Result<Memory, Error> {
    if !readable then Err(StorageUnreadable) else
    match file.image
    case None => Ok(EMPTY_MEMORY)
    case Some(Malformed) => Err(UndecodableStorage)
    case Some(Document(version, outbox, inbox)) =>
      if !QueueWellTyped(outbox) || !QueueWellTyped(inbox) then Err(UndecodableStorage)
      else if version != 1 then Err(UnsupportedVersion(version))
      else Ok(Memory(version, DecodeQueue(outbox), DecodeQueue(inbox)))
  }

  /** The file states one persist passes through, first to last. */
  function PersistTrace(cfg: StoreConfig, m: Memory, file: FileState, outcome: PersistOutcome): (trace: seq<FileState>)
    ensures trace != []
  {
    if !cfg.localFile || outcome.MkdirFailed? then [file]
    else
      var truncated := file.(temp := Some(Malformed));
      if outcome.TempWriteFailed? then [file, truncated]
      else
        var written := file.(temp := Some(Encode(m)));
        if outcome.RenameFailed? then [file, truncated, written]
        else [file, truncated, written, FileState(Some(Encode(m)), None)]
  }

  function Persist(cfg: StoreConfig, m: Memory, file: FileState, outcome: PersistOutcome): (FileState, Option<Error>) {
    var trace := PersistTrace(cfg, m, file, outcome);
    (trace[|trace| - 1], if !cfg.localFile || outcome.Persisted? then None else Some(StorageFailed(outcome)))
  }

  // ---------- retention ----------

  function Timestamp(r: Record): int {
    if r.meta.createdAt != 0 then r.meta.createdAt else r.meta.receivedAt
  }

  predicate NotNewer(q: Queue, a: string, b: string)
    requires a in q && b in q
  {
    Timestamp(q[a]) <= Timestamp(q[b])
  }

  function Retain(q: Queue, kept: set<string>): Queue {
    map ref | ref in q && ref in kept :: q[ref]
  }

  /** With a positive limit exactly the excess goes; without one nothing does. */
  ghost predicate IsExcessDropped(q: Queue, limit: nat, kept: set<string>) {
    kept <= q.Keys && if limit == 0 || |q| <= limit then kept == q.Keys else |kept| == limit
  }

  /** What the eviction loop may leave: the excess is gone, and nobody evicted is newer than anybody kept. */
  ghost predicate IsRetention(q: Queue, limit: nat, kept: set<string>) {
    && IsExcessDropped(q, limit, kept)
    && forall e, k | e in q && e !in kept && k in kept :: NotNewer(q, e, k)
  }

  // ---------- operations ----------

  datatype System = System(cfg: StoreConfig, mem: Memory, file: FileState)

  datatype Reply = Returned(record: Record) | Rejected(error: Error) | Reopened

  datatype EnqueueInput = EnqueueInput(
    envelope: Option<Envelope>, messageRef: string, senderRef: string, recipientRef: string,
    custodyRef: string, authzRef: string, idempotencyKey: string, requestedAt: int)

  datatype ClaimInput = ClaimInput(envelopeRef: string, claimantRef: string, leaseId: string, requestedAt: int)

  datatype ReceiveInput = ReceiveInput(
    envelope: Option<Envelope>, envelopeRef: string, recipientRef: string, idempotencyKey: string, requestedAt: int)

  /** Clock readings one call may need: nanoseconds for a ref, seconds for a timestamp. */
  datatype Clock = Clock(nanos: int, seconds: int)

  function UnixTime(requestedAt: int, clock: Clock): int {
    if requestedAt != 0 then requestedAt else clock.seconds
  }

  function CheckEnqueue(input: EnqueueInput): Option<Error> {
    if input.envelope.None? then Some(EnvelopeRequired)
    else if input.envelope.value.ciphertext == [] then Some(CiphertextRequired)
    else if input.custodyRef == "" then Some(CustodyRefRequired)
    else if input.authzRef == "" then Some(AuthzRefRequired)
    else if input.senderRef == "" then Some(SenderRefRequired)
    else if input.recipientRef == "" then Some(RecipientRefRequired)
    else if input.idempotencyKey == "" && input.messageRef == "" then Some(KeyOrMessageRefRequired)
    else None
  }

  function EnqueuedRecord(input: EnqueueInput, clock: Clock): Record
    requires CheckEnqueue(input).None?
  {
    var ref := EnvelopeRef("outbox", input.idempotencyKey, input.senderRef, input.recipientRef, input.messageRef,
                           clock.nanos);
    Record(
      input.envelope.value,
      Metadata(ref, "outbox", "queued", input.senderRef, input.recipientRef, input.custodyRef, input.authzRef,
               input.messageRef, UnixTime(input.requestedAt, clock), 0, 0, ""))
  }

  function CheckReceive(input: ReceiveInput): Option<Error> {
    if input.envelope.None? then Some(EnvelopeRequired)
    else if input.envelope.value.ciphertext == [] then Some(CiphertextRequired)
    else None
  }

  function ReceivedRecord(input: ReceiveInput, clock: Clock): Record
    requires CheckReceive(input).None?
  {
    var e := input.envelope.value;
    var generated := EnvelopeRef("inbox", input.idempotencyKey, input.recipientRef, e.address.senderId, "",
                                 clock.nanos);
    Record(e, Metadata(FirstNonEmpty(input.envelopeRef, generated), "inbox", "received", "", input.recipientRef,
                       "", "", "", 0, 0, UnixTime(input.requestedAt, clock), ""))
  }

  /** Installs the new memory and tries to persist it; a failed persist still leaves memory changed. */
  function Commit(s: System, m: Memory, record: Record, outcome: PersistOutcome): (System, Reply) {
    var (file, error) := Persist(s.cfg, m, s.file, outcome);
    (System(s.cfg, m, file), if error.Some? then Rejected(error.value) else Returned(record))
  }

  function Enqueue(s: System, input: EnqueueInput, clock: Clock, kept: set<string>,
                   outcome: PersistOutcome): (System, Reply) {
    match CheckEnqueue(input)
    case Some(e) => (s, Rejected(e))
    case None =>
      var record := EnqueuedRecord(input, clock);
      var outbox := Retain(s.mem.outbox[record.meta.envelopeRef := record], kept);
      Commit(s, s.mem.(outbox := outbox), record, outcome)
  }

  function ClaimedMetadata(m: Metadata, input: ClaimInput, clock: Clock): Metadata {
    m.(status := "claimed", claimedAt := UnixTime(input.requestedAt, clock),
       leaseRef := LeaseFor(FirstNonEmpty(input.leaseId, input.claimantRef), input.envelopeRef))
  }

  function Claimed(r: Record, input: ClaimInput, clock: Clock): Record {
    Record(r.envelope, ClaimedMetadata(r.meta, input, clock))
  }

  function CheckClaim(outbox: Queue, input: ClaimInput): Option<Error> {
    if input.envelopeRef == "" then Some(EnvelopeRefRequired)
    else if input.claimantRef == "" then Some(ClaimantRefRequired)
    else if input.envelopeRef !in outbox then Some(NotQueued(input.envelopeRef))
    else if outbox[input.envelopeRef].meta.status != "queued" then
      Some(Already(input.envelopeRef, outbox[input.envelopeRef].meta.status))
    else None
  }

  function Claim(s: System, input: ClaimInput, clock: Clock, outcome: PersistOutcome): (System, Reply) {
    match CheckClaim(s.mem.outbox, input)
    case Some(e) => (s, Rejected(e))
    case None =>
      var ref := input.envelopeRef;
      var record := Claimed(s.mem.outbox[ref], input, clock);
      Commit(s, s.mem.(outbox := s.mem.outbox[ref := record]), record, outcome)
  }

  function Receive(s: System, input: ReceiveInput, clock: Clock, kept: set<string>,
                   outcome: PersistOutcome): (System, Reply) {
    match CheckReceive(input)
    case Some(e) => (s, Rejected(e))
    case None =>
      var record := ReceivedRecord(input, clock);
      var inbox := Retain(s.mem.inbox[record.meta.envelopeRef := record], kept);
      Commit(s, s.mem.(inbox := inbox), record, outcome)
  }

  function ReadInbox(s: System, ref: string): Reply {
    if ref == "" then Rejected(EnvelopeRefRequired)
    else if ref !in s.mem.inbox then Rejected(NotReceived(ref))
    else Returned(s.mem.inbox[ref])
  }

  /** A fresh Init on the same path; it replaces the store only when loading succeeds. */
  function Restart(s: System, cfg: StoreConfig, readable: bool): (System, Reply) {
    if !cfg.localFile then (System(cfg, EMPTY_MEMORY, s.file), Reopened)
    else match Load(s.file, readable)
      case Ok(m) => (System(cfg, m, s.file), Reopened)
      case Err(e) => (s, Rejected(e))
  }

  // ---------- loading undoes persisting ----------

  lemma EnvelopeSurvives(e: Envelope)
    ensures DecodeEnvelope(EncodeEnvelope(e)) == e
  {}

  lemma TextFieldSurvives(r: Metadata, f: RecordField)
    requires f != CreatedAt && f != ClaimedAt && f != ReceivedAt
    ensures TextAt(EncodeMetadata(r), f) == MetadataScalar(r, f).text
  {}

  lemma NumberFieldSurvives(r: Metadata, f: RecordField)
    requires f == CreatedAt || f == ClaimedAt || f == ReceivedAt
    ensures NumberAt(EncodeMetadata(r), f) == MetadataScalar(r, f).number
  {}

  lemma MetadataSurvives(m: Metadata)
    ensures DecodeMetadata(EncodeMetadata(m)) == m
  {
    TextFieldSurvives(m, EnvelopeRefField);
    TextFieldSurvives(m, QueueField);
    TextFieldSurvives(m, StatusField);
    TextFieldSurvives(m, SenderRef);
    TextFieldSurvives(m, RecipientRef);
    TextFieldSurvives(m, CustodyRef);
    TextFieldSurvives(m, AuthzRef);
    TextFieldSurvives(m, MessageRef);
    TextFieldSurvives(m, LeaseRef);
    NumberFieldSurvives(m, CreatedAt);
    NumberFieldSurvives(m, ClaimedAt);
    NumberFieldSurvives(m, ReceivedAt);
  }

  /** A record comes back from its image whole, the fields that were not written included. */
  lemma DecodeUndoesEncode(r: Record)
    ensures DecodeRecord(EncodeRecord(r)) == r
  {
    EnvelopeSurvives(r.envelope);
    MetadataSurvives(r.meta);
  }

  lemma EncodedIsWellTyped(r: Record)
    ensures WellTyped(EncodeRecord(r))
  {}

  lemma EncodedQueueIsWellTyped(q: Queue)
    ensures QueueWellTyped(Some(EncodeQueue(q)))
  {
    forall ref | ref in q
      ensures WellTyped(EncodeRecord(q[ref]))
    {
      EncodedIsWellTyped(q[ref]);
    }
  }

  lemma EncodedQueueDecodes(q: Queue)
    ensures DecodeQueue(Some(EncodeQueue(q))) == q
  {
    forall ref | ref in q
      ensures DecodeRecord(EncodeRecord(q[ref])) == q[ref]
    {
      DecodeUndoesEncode(q[ref]);
    }
  }

  /** What one persist writes, the next load restores, dropped zero fields included. */
  lemma LoadUndoesPersist(m: Memory, temp: Option<Image>)
    requires m.version == 1
    ensures Load(FileState(Some(Encode(m)), temp), true) == Ok(m)
  {
    EncodedQueueIsWellTyped(m.outbox);
    EncodedQueueIsWellTyped(m.inbox);
    EncodedQueueDecodes(m.outbox);
    EncodedQueueDecodes(m.inbox);
  }

  /**
  A crash anywhere inside a persist leaves the storage path holding the old
  image or the whole new one; the new one appears only when persist succeeds.
  */
  lemma PersistNeverTears(cfg: StoreConfig, m: Memory, file: FileState, outcome: PersistOutcome, k: nat)
    requires k < |PersistTrace(cfg, m, file, outcome)|
    ensures var at := PersistTrace(cfg, m, file, outcome)[k];
      && (at.image == file.image || at.image == Some(Encode(m)))
      && (at.image != file.image ==> Persist(cfg, m, file, outcome) == (at, None))
      && (Persist(cfg, m, file, outcome).1.Some? ==> at.image == file.image)
  {}
}
