/**
When the operations of the sealed custody store succeed, why they fail, and what
they leave in the directory, in terms of the call and of what is stored.
*/
module SealedAnswers {
  import opened Common
  import opened Refs
  import opened Sealing
  import opened SealedModel
  import opened SealedRuns

  // ---------- reading ----------

  /** Why the bundle of a ref cannot be read, if it cannot. */
  ghost function ReadRefusal(h: Host, v: Vault, ref: string, readable: bool): Option<Error> {
    var stored := StoredAt(h, v.files, ref);
    Demand(ref != "", RefRequired,
    Demand(readable, ReadFailed,
    Demand(stored.Some?, NoSuchFile,
    Demand(stored != Some(Garbage), PartialBundle, if stored.Some? && stored.value.Document? then
      var b, secret := stored.value.bundle, h.resolve(v.cfg.kekRef);
      Demand(b.meta.kekRef == v.cfg.kekRef && b.meta.kekVersion == v.cfg.kekVersion, StaleKek,
      Demand(secret.Some?, NoSecret,
      Demand(secret.Some? && Open(secret.value, b.nonce, Aad(b.meta), b.ciphertext).Some?, AuthenticationFailed, None)))
    else None))))
  }

  /** In a directory the store has made itself, a ref can be read exactly when it is under the store's KEK pair. */
  lemma SoundReads(h: Host, refs: set<string>, v: Vault, l: Ledger, ref: string, readable: bool)
    requires Sound(h, refs, v.files, l) && ref in refs
    ensures ReadRefusal(h, v, ref, readable) ==
      Demand(ref != "", RefRequired,
      Demand(readable, ReadFailed,
      Demand(ref in l, NoSuchFile,
      match StoredAt(h, v.files, ref)
      case Some(Document(b)) => if PairMatches(v.cfg, b) then None else Some(StaleKek)
      case _ => None)))
  {}

  /** Inspect answers the stored metadata of every ref that can be read, whatever its state. */
  lemma InspectAnswers(h: Host, v: Vault, ref: string, readable: bool, clock: int)
    ensures var (after, answer) := Call(h, v, Inspect(ref, readable), clock);
      && after == v
      && match ReadRefusal(h, v, ref, readable)
         case Some(e) => answer == Err(e)
         case None => answer == Ok(StoredAt(h, v.files, ref).value.bundle.meta)
  {}

  /** Restore answers it too, unless the ref is revoked. */
  lemma RestoreAnswers(h: Host, v: Vault, ref: string, readable: bool, clock: int)
    ensures var (after, answer) := Call(h, v, Restore(ref, readable), clock);
      && after == v
      && match ReadRefusal(h, v, ref, readable)
         case Some(e) => answer == Err(e)
         case None =>
           answer == if IsRevoked(h, v.files, ref) then Err(RevokedRef)
                     else Ok(StoredAt(h, v.files, ref).value.bundle.meta)
  {}

  // ---------- writing ----------

  /** Why a write of this ref under this KEK fails, if it does. */
  function WriteRefusal(h: Host, files: Files, ref: string, kekRef: string, io: WriteIo): Option<Error> {
    Demand(io.fault != MkdirFault, WriteFailed(MkdirFault),
    Demand(h.resolve(kekRef).Some?, NoSecret,
    Demand(io.fault != NonceFault, WriteFailed(NonceFault),
    Demand(TempName(h, ref, io.suffix) !in files, WriteFailed(CreateTempFault),
    Demand(io.fault == NoFault, WriteFailed(io.fault), None)))))
  }

  /**
  A write that succeeds leaves exactly the sealed bundle more; one that fails
  leaves nothing behind unless the temporary file was made and its remove failed.
  */
  lemma WriteLeaves(h: Host, files: Files, w: Write)
    requires HexNames(h)
    ensures WriteError(h, files, w) == WriteRefusal(h, files, w.meta.refId, w.cfg.kekRef, w.io)
    ensures var temp, after := TempName(h, w.meta.refId, w.io.suffix), Last(WriteTrace(h, files, w));
      var refusal := WriteRefusal(h, files, w.meta.refId, w.cfg.kekRef, w.io);
      if refusal.None? then
        && h.resolve(w.cfg.kekRef).Some?
        && after == files[BundleName(h, w.meta.refId) := Document(Bundle(
             w.meta, w.io.nonce, Sealed(h.resolve(w.cfg.kekRef).value, w.io.nonce, Aad(w.meta), w.material)))]
      else if w.io.removeWorks || temp in files || refusal.value == NoSecret
              || w.io.fault in {MkdirFault, NonceFault, CreateTempFault} then after == files
      else temp in after && after - {temp} == files
  {
    TempIsNoBundle(h, w.meta.refId, w.io.suffix, w.meta.refId);
  }

  /** The metadata a call answers, when its write succeeds, is what it has stored. */
  ghost predicate Answers(h: Host, v: Vault, op: Op, clock: int, refusal: Option<Error>, meta: Metadata, cfg: Config) {
    var (after, answer) := Call(h, v, op, clock);
    match refusal
    case Some(e) => answer == Err(e) && after.cfg == v.cfg
    case None =>
      && answer == Ok(meta) && after.cfg == cfg
      && match StoredAt(h, after.files, op.ref)
         case Some(Document(b)) => b.meta == meta
         case _ => false
  }

  ghost function OrElse<E>(first: Option<E>, second: Option<E>): Option<E> {
    if first.Some? then first else second
  }

  /** Create succeeds exactly when its write does, whatever is stored already, revoked or active. */
  lemma CreateAnswers(h: Host, refs: set<string>, v: Vault, op: Op, clock: int)
    requires InUse(h, refs) && op.ref in refs && WellStored(h, refs, v.files) && op.Create?
    ensures var t := if op.now == ZERO_TIME then clock else op.now;
      var refusal := Demand(op.ref != "", RefRequired, WriteRefusal(h, v.files, op.ref, v.cfg.kekRef, op.io));
      Answers(h, v, op, clock, refusal,
              Metadata(backendId := v.cfg.backendId, refId := op.ref, schemaVersion := v.cfg.schemaVersion,
                       kekRef := v.cfg.kekRef, kekVersion := v.cfg.kekVersion, createdAt := t, rotatedAt := t,
                       revokedAt := ZERO_TIME, state := Active, accountRef := op.accountRef,
                       deviceRef := op.deviceRef),
              v.cfg)
  {
    EventEffect(h, refs, v, Returns(op, clock), op.ref);
  }

  /** Rotate succeeds exactly for a readable, unrevoked ref at the expected version, when its write does. */
  lemma RotateAnswers(h: Host, refs: set<string>, v: Vault, op: Op, clock: int, stored: Metadata)
    requires InUse(h, refs) && op.ref in refs && WellStored(h, refs, v.files) && op.Rotate?
    requires match StoredAt(h, v.files, op.ref)
      case Some(Document(b)) => stored == b.meta
      case _ => true
    ensures var kekRef := if op.newKekRef == "" then v.cfg.kekRef else op.newKekRef;
      var refusal :=
        Demand(op.ref != "", RefRequired,
        Demand(op.expected != "", ExpectedVersionRequired,
        Demand(op.newVersion != "", NewVersionRequired,
        OrElse(ReadRefusal(h, v, op.ref, op.readable),
        Demand(stored.state != Revoked, RevokedRef,
        Demand(stored.kekVersion == op.expected, RotateConflict,
               WriteRefusal(h, v.files, op.ref, kekRef, op.io)))))));
      Answers(h, v, op, clock, refusal,
              stored.(kekRef := kekRef, kekVersion := op.newVersion,
                      rotatedAt := if op.now == ZERO_TIME then clock else op.now),
              v.cfg.(kekRef := kekRef, kekVersion := op.newVersion))
  {
    EventEffect(h, refs, v, Returns(op, clock), op.ref);
  }

  /** Revoke succeeds exactly for a readable ref, active or revoked already, when its write does. */
  lemma RevokeAnswers(h: Host, refs: set<string>, v: Vault, op: Op, clock: int, stored: Metadata)
    requires InUse(h, refs) && op.ref in refs && WellStored(h, refs, v.files) && op.Revoke?
    requires match StoredAt(h, v.files, op.ref)
      case Some(Document(b)) => stored == b.meta
      case _ => true
    ensures var refusal := OrElse(ReadRefusal(h, v, op.ref, op.readable),
                                  WriteRefusal(h, v.files, op.ref, v.cfg.kekRef, op.io));
      Answers(h, v, op, clock, refusal,
              stored.(state := Revoked, revokedAt := if op.now == ZERO_TIME then clock else op.now), v.cfg)
  {
    EventEffect(h, refs, v, Returns(op, clock), op.ref);
  }

  /** A whole life, with a healthy disk: created, restored, revoked, and from then on only to be inspected. */
  lemma CreatedCanBeRevoked(h: Host, refs: set<string>, v: Vault, l: Ledger, create: Op, revoke: Op, clock: int)
    requires InUse(h, refs) && create.ref in refs && Sound(h, refs, v.files, l)
    requires create.Create? && revoke.Revoke? && revoke.ref == create.ref != "" && revoke.readable
    requires WriteRefusal(h, v.files, create.ref, v.cfg.kekRef, create.io).None?
    requires revoke.io.fault == NoFault && TempName(h, create.ref, revoke.io.suffix) !in v.files
    ensures var (created, _) := Call(h, v, create, clock);
      var (revoked, answer) := Call(h, created, revoke, clock);
      && Call(h, created, Restore(create.ref, true), clock).1.Ok?
      && answer.Ok? && answer.value.state == Revoked
      && Call(h, revoked, Restore(create.ref, true), clock).1 == Err(RevokedRef)
      && Call(h, revoked, Inspect(create.ref, true), clock).1 == answer
  {
    var e := Returns(create, clock);
    var created := Call(h, v, create, clock).0;
    CreateAnswers(h, refs, v, create, clock);
    EventStaysSound(h, refs, v, l, e);
    var l1 := Record(h, v, l, e);
    RestoreAnswers(h, created, create.ref, true, clock);
    SoundReads(h, refs, created, l1, create.ref, true);
    TempIsNoBundle(h, create.ref, revoke.io.suffix, create.ref);
    var w := Committed(h, v, e).value;
    WriteLeaves(h, v.files, w);
    assert TempName(h, create.ref, revoke.io.suffix) !in created.files;
    var stored := StoredAt(h, created.files, create.ref).value.bundle.meta;
    RevokeAnswers(h, refs, created, revoke, clock, stored);
    RevokeThenInspect(h, refs, created, l1, revoke, clock);
  }

  /** The names and labels other programs can see: bundle files, temporary files, associated data. */
  lemma NamesAndLabels(h: Host, ref: string, suffix: string, m: Metadata)
    ensures BundleName(h, ref) == h.digest(ref) + ".json"
    ensures TempName(h, ref, suffix) == "." + h.digest(ref) + ".json.tmp-" + suffix
    ensures Aad(m) == m.backendId + "\0" + m.refId + "\0" + m.kekRef + "\0" + m.kekVersion
  {
    assert "." + (h.digest(ref) + ".json") + ".tmp-" + suffix == "." + h.digest(ref) + ".json.tmp-" + suffix;
  }

  /** Which configurations open, with the first thing missing, and schema version 1 unless given. */
  lemma OpenAnswers(cfg: Config)
    ensures OpenError(cfg) ==
      Demand(cfg.backendId != "", BackendIdRequired,
      Demand(cfg.storageDir != "", StorageDirRequired,
      Demand(cfg.kekRef != "", KekRefRequired,
      Demand(cfg.kekVersion != "", KekVersionRequired,
      Demand(cfg.hasResolver, ResolverRequired, None)))))
    ensures Normalized(cfg) == cfg.(schemaVersion := if cfg.schemaVersion == 0 then 1 else cfg.schemaVersion)
  {}

  /** Opening a store again takes up its configuration, or fails and changes nothing; the directory stays as it is. */
  lemma ReopenAnswers(h: Host, v: Vault, cfg: Config)
    ensures var after := Next(h, v, Reopens(cfg));
      && after.files == v.files
      && (OpenError(cfg).Some? ==> after == v)
      && (OpenError(cfg).None? ==>
            after.cfg == cfg.(schemaVersion := if cfg.schemaVersion == 0 then 1 else cfg.schemaVersion))
  {
    OpenAnswers(cfg);
  }

  /**
  What moves the store's KEK: a Rotate that returns without an error, or a
  reopening. A rotation that dies after its rename leaves its bundle ahead of the
  store, to be read again once the store is opened with the new pair.
  */
  lemma ConfigMovesOnlyBy(h: Host, v: Vault, e: Event)
    ensures var after := Next(h, v, e).cfg;
      match e
      case Reopens(cfg) => after == if OpenError(cfg).None? then Normalized(cfg) else v.cfg
      case Crashes(_, _, _) => after == v.cfg
      case Returns(op, clock) =>
        after == if op.Rotate? && Call(h, v, op, clock).1.Ok?
                 then v.cfg.(kekRef := if op.newKekRef == "" then v.cfg.kekRef else op.newKekRef,
                             kekVersion := op.newVersion)
                 else v.cfg
  {}
}
