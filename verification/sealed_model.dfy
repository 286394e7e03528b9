/**
The sealed custody store as a state machine over values: a directory of files,
the store-wide KEK configuration, one function for each operation.
*/
module SealedModel {
  import opened Common
  import opened Refs
  import opened Sealing

  type Material = map<string, seq<byte>>

  // ---------- entities ----------

  datatype State = Active | Revoked

  datatype Metadata = Metadata(
    backendId: string, refId: string, schemaVersion: nat, kekRef: string, kekVersion: string,
    createdAt: int, rotatedAt: int, revokedAt: int, state: State, accountRef: string, deviceRef: string)

  datatype Bundle = Bundle(meta: Metadata, nonce: nat, ciphertext: Sealed<Material>)

  /** A file: a complete bundle, or bytes that do not decode (a partial write). */
  datatype Content = Garbage | Document(bundle: Bundle)

  type Files = map<string, Content>

  /** What the resolver answers is the host's; the configuration only has one or not. */
  datatype Config = Config(
    backendId: string, storageDir: string, kekRef: string, kekVersion: string, schemaVersion: nat, hasResolver: bool)

  /** What lies outside the store: the host's secrets and the digest that names files. */
  datatype Host = Host(resolve: string -> Option<Secret>, digest: string -> string)

  datatype Error =
    | BackendIdRequired | StorageDirRequired | KekRefRequired | KekVersionRequired | ResolverRequired
    | RefRequired | ExpectedVersionRequired | NewVersionRequired
    | ReadFailed | NoSuchFile | PartialBundle | StaleKek | NoSecret | AuthenticationFailed
    | RevokedRef | RotateConflict | WriteFailed(fault: Fault)

  function Aad(m: Metadata): string {
    Join4(m.backendId, m.refId, m.kekRef, m.kekVersion)
  }

  const ZERO_TIME: int := 0

  function NonZeroTime(t: int, clock: int): int {
    if t == ZERO_TIME then clock else t
  }

  // ---------- file names ----------

  function BundleName(h: Host, ref: string): string {
    h.digest(ref) + ".json"
  }

  /** CreateTemp replaces the star of its pattern by a random suffix. */
  function TempName(h: Host, ref: string, suffix: string): string {
    "." + BundleName(h, ref) + ".tmp-" + suffix
  }

  /** Hex digests are not empty and never start with a dot. */
  ghost predicate HexNames(h: Host) {
    forall ref :: h.digest(ref) != "" && h.digest(ref)[0] != '.'
  }

  /** No two refs in use share a digest. */
  ghost predicate InjectiveOn(h: Host, refs: set<string>) {
    forall a, b | a in refs && b in refs && a != b :: h.digest(a) != h.digest(b)
  }

  /** A temporary name is never the name of a bundle, whatever the refs and the suffix. */
  lemma TempIsNoBundle(h: Host, ref: string, suffix: string, other: string)
    requires HexNames(h)
    ensures TempName(h, ref, suffix) != BundleName(h, other)
  {
    assert TempName(h, ref, suffix)[0] == '.';
    assert BundleName(h, other)[0] == h.digest(other)[0];
  }

  lemma BundleNamesDiffer(h: Host, refs: set<string>, a: string, b: string)
    requires InjectiveOn(h, refs) && a in refs && b in refs && a != b
    ensures BundleName(h, a) != BundleName(h, b)
  {
    var x, y := BundleName(h, a), BundleName(h, b);
    assert h.digest(a) == x[..|x| - 5] && h.digest(b) == y[..|y| - 5];
  }

  // ---------- reading ----------

  /** A bundle together with what it unseals to. */
  datatype Opened = Opened(bundle: Bundle, material: Material)

  function ReadBundle(h: Host, cfg: Config, files: Files, ref: string): Result<Opened, Error> {
    var name := BundleName(h, ref);
    if name !in files then Err(NoSuchFile)
    else match files[name]
      case Garbage => Err(PartialBundle)
      case Document(b) =>
        if b.meta.kekRef != cfg.kekRef || b.meta.kekVersion != cfg.kekVersion then Err(StaleKek)
        else match Decrypt(h, cfg, b)
          case Ok(material) => Ok(Opened(b, material))
          case Err(e) => Err(e)
  }

  /** Reading can fail although the file is there. */
  function TryRead(h: Host, v: Vault, ref: string, readable: bool): Result<Opened, Error> {
    if readable then ReadBundle(h, v.cfg, v.files, ref) else Err(ReadFailed)
  }

  function Decrypt(h: Host, cfg: Config, b: Bundle): Result<Material, Error> {
    match h.resolve(cfg.kekRef)
    case None => Err(NoSecret)
    case Some(secret) =>
      match Open(secret, b.nonce, Aad(b.meta), b.ciphertext)
      case None => Err(AuthenticationFailed)
      case Some(m) => Ok(m)
  }

  // ---------- writing: temp file, sync, close, rename ----------

  /** The step at which a write fails, if any. */
  datatype Fault =
    | NoFault | MkdirFault | NonceFault | CreateTempFault | WriteFault | SyncFault | CloseFault | RenameFault

  /** What the environment contributes to one write; the deferred remove may fail too. */
  datatype WriteIo = WriteIo(nonce: nat, suffix: string, fault: Fault, removeWorks: bool)

  function Seal(secret: Secret, meta: Metadata, material: Material, nonce: nat): Bundle {
    Bundle(meta, nonce, Sealed(secret, nonce, Aad(meta), material))
  }

  function AfterRemove(files: Files, name: string, io: WriteIo): Files {
    if io.removeWorks then files - {name} else files
  }

  /** Everything one bundle write needs to know. */
  datatype Write = Write(cfg: Config, meta: Metadata, material: Material, io: WriteIo)

  function WriteError(h: Host, files: Files, w: Write): Option<Error> {
    if w.io.fault == MkdirFault then Some(WriteFailed(MkdirFault))
    else if h.resolve(w.cfg.kekRef).None? then Some(NoSecret)
    else if w.io.fault == NonceFault then Some(WriteFailed(NonceFault))
    else if TempName(h, w.meta.refId, w.io.suffix) in files then Some(WriteFailed(CreateTempFault))
    else if w.io.fault != NoFault then Some(WriteFailed(w.io.fault))
    else None
  }

  /** The directory states a write passes through, first to last, the deferred remove included. */
  function WriteTrace(h: Host, files: Files, w: Write): (trace: seq<Files>)
    ensures trace != [] && trace[0] == files
  {
    var temp := TempName(h, w.meta.refId, w.io.suffix);
    var secret := h.resolve(w.cfg.kekRef);
    if w.io.fault == MkdirFault || secret.None? || w.io.fault == NonceFault || w.io.fault == CreateTempFault
       || temp in files then
      [files]
    else
      var bundle := Seal(secret.value, w.meta, w.material, w.io.nonce);
      var created := files[temp := Garbage];
      if w.io.fault == WriteFault then [files, created, AfterRemove(created, temp, w.io)]
      else
        var written := files[temp := Document(bundle)];
        if w.io.fault != NoFault then [files, created, written, AfterRemove(written, temp, w.io)]
        else [files, created, written, files[BundleName(h, w.meta.refId) := Document(bundle)]]
  }

  function Last(trace: seq<Files>): Files
    requires trace != []
  {
    trace[|trace| - 1]
  }

  // ---------- operations ----------

  datatype Vault = Vault(cfg: Config, files: Files)

  datatype Op =
    | Create(ref: string, accountRef: string, deviceRef: string, material: Material, now: int, io: WriteIo)
    | Restore(ref: string, readable: bool)
    | Inspect(ref: string, readable: bool)
    | Rotate(ref: string, expected: string, newKekRef: string, newVersion: string, now: int, readable: bool,
             io: WriteIo)
    | Revoke(ref: string, now: int, readable: bool, io: WriteIo)

  /** What an operation decides before it touches the disk: an answer, an error, or a write. */
  datatype Plan = Answer(meta: Metadata) | Refuse(error: Error) | Perform(write: Write)

  function PlanOf(h: Host, v: Vault, op: Op, clock: int): Plan {
    if op.ref == "" then Refuse(RefRequired)
    else match op
      case Create(ref, accountRef, deviceRef, material, now, io) =>
        var t := NonZeroTime(now, clock);
        var meta := Metadata(v.cfg.backendId, ref, v.cfg.schemaVersion, v.cfg.kekRef, v.cfg.kekVersion,
                             t, t, ZERO_TIME, Active, accountRef, deviceRef);
        Perform(Write(v.cfg, meta, material, io))
      case Restore(ref, readable) =>
        (match TryRead(h, v, ref, readable)
         case Err(e) => Refuse(e)
         case Ok(o) => if o.bundle.meta.state == Revoked then Refuse(RevokedRef) else Answer(o.bundle.meta))
      case Inspect(ref, readable) =>
        (match TryRead(h, v, ref, readable)
         case Err(e) => Refuse(e)
         case Ok(o) => Answer(o.bundle.meta))
      case Rotate(ref, expected, newKekRef, newVersion, now, readable, io) =>
        if expected == "" then Refuse(ExpectedVersionRequired)
        else if newVersion == "" then Refuse(NewVersionRequired)
        else (match TryRead(h, v, ref, readable)
          case Err(e) => Refuse(e)
          case Ok(Opened(b, material)) =>
            if b.meta.state == Revoked then Refuse(RevokedRef)
            else if b.meta.kekVersion != expected then Refuse(RotateConflict)
            else
              var kekRef := FirstNonEmpty(newKekRef, v.cfg.kekRef);
              var meta := b.meta.(kekRef := kekRef, kekVersion := newVersion, rotatedAt := NonZeroTime(now, clock));
              Perform(Write(v.cfg.(kekRef := kekRef, kekVersion := newVersion), meta, material, io)))
      case Revoke(ref, now, readable, io) =>
        (match TryRead(h, v, ref, readable)
         case Err(e) => Refuse(e)
         case Ok(Opened(b, material)) =>
           var meta := b.meta.(state := Revoked, revokedAt := NonZeroTime(now, clock));
           Perform(Write(v.cfg, meta, material, io)))
  }

  /** One uninterrupted call: its result and the vault it leaves. */
  function Call(h: Host, v: Vault, op: Op, clock: int): (Vault, Result<Metadata, Error>) {
    match PlanOf(h, v, op, clock)
    case Answer(meta) => (v, Ok(meta))
    case Refuse(e) => (v, Err(e))
    case Perform(w) =>
      var files := Last(WriteTrace(h, v.files, w));
      match WriteError(h, v.files, w)
      case Some(e) => (Vault(v.cfg, files), Err(e))
      case None => (Vault(w.cfg, files), Ok(w.meta))
  }

  /** NewSealedStore: which configurations open at all, and with which schema version. */
  function OpenError(cfg: Config): Option<Error> {
    if cfg.backendId == "" then Some(BackendIdRequired)
    else if cfg.storageDir == "" then Some(StorageDirRequired)
    else if cfg.kekRef == "" then Some(KekRefRequired)
    else if cfg.kekVersion == "" then Some(KekVersionRequired)
    else if !cfg.hasResolver then Some(ResolverRequired)
    else None
  }

  function Normalized(cfg: Config): Config {
    if cfg.schemaVersion == 0 then cfg.(schemaVersion := 1) else cfg
  }
}
