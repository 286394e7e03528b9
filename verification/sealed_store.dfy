/**
The sealed custody store over mutable state: a configuration that Rotate moves,
and a directory that bundle writes change one file-system step at a time. Each
method is proved against the state machine in sealed_model.dfy.
*/
module SealedStores {
  import opened Common
  import opened SealedModel

  /** The storage directory. */
  class Directory {
    var files: Files
  }

  class SealedStore {
    const host: Host
    const dir: Directory
    var cfg: Config

    constructor (host: Host, dir: Directory, cfg: Config)
      ensures this.host == host && this.dir == dir && this.cfg == cfg
    {
      this.host, this.dir, this.cfg := host, dir, cfg;
    }

    /** NewSealedStore: required fields first, then the default schema version. */
    static method New(host: Host, dir: Directory, cfg: Config) returns (r: Result<SealedStore, Error>)
      ensures match r
        case Ok(s) => OpenError(cfg).None? && fresh(s) && s.dir == dir && s.host == host && s.cfg == Normalized(cfg)
        case Err(e) => OpenError(cfg) == Some(e)
    {
      if cfg.backendId == "" {
        return Err(BackendIdRequired);
      }
      if cfg.storageDir == "" {
        return Err(StorageDirRequired);
      }
      if cfg.kekRef == "" {
        return Err(KekRefRequired);
      }
      if cfg.kekVersion == "" {
        return Err(KekVersionRequired);
      }
      var normalized := cfg;
      if normalized.schemaVersion == 0 {
        normalized := normalized.(schemaVersion := 1);
      }
      if !normalized.hasResolver {
        return Err(ResolverRequired);
      }
      var s := new SealedStore(host, dir, normalized);
      r := Ok(s);
    }

    ghost function State(): Vault
      reads this, dir
    {
      Vault(cfg, dir.files)
    }

    /** The deferred remove of a temporary file; its own failure is ignored. */
    method RemoveTemp(name: string, io: WriteIo)
      modifies dir
      ensures dir.files == AfterRemove(old(dir.files), name, io)
    {
      if io.removeWorks {
        dir.files := dir.files - {name};
      }
    }

    /**
    Writes a bundle through a temporary file. `visited` records the directory
    after every step, so a crash between any two of them is one of its elements.
    */
    method WriteBundle(cfg: Config, meta: Metadata, material: Material, io: WriteIo)
      returns (error: Option<Error>, ghost visited: seq<Files>)
      requires HexNames(host)
      modifies dir
      ensures visited == WriteTrace(host, old(dir.files), Write(cfg, meta, material, io))
      ensures error == WriteError(host, old(dir.files), Write(cfg, meta, material, io))
      ensures dir.files == Last(visited)
    {
      visited := [dir.files];
      if io.fault == MkdirFault {
        return Some(WriteFailed(MkdirFault)), visited;
      }
      var secret := host.resolve(cfg.kekRef);
      if secret.None? {
        return Some(NoSecret), visited;
      }
      if io.fault == NonceFault {
        return Some(WriteFailed(NonceFault)), visited;
      }
      var bundle := Seal(secret.value, meta, material, io.nonce);
      var path, temp := BundleName(host, meta.refId), TempName(host, meta.refId, io.suffix);
      if io.fault == CreateTempFault || temp in dir.files {
        return Some(WriteFailed(CreateTempFault)), visited;
      }
      ghost var before := dir.files;
      dir.files := dir.files[temp := Garbage];
      visited := visited + [dir.files];
      if io.fault == WriteFault {
        RemoveTemp(temp, io);
        return Some(WriteFailed(WriteFault)), visited + [dir.files];
      }
      dir.files := dir.files[temp := Document(bundle)];
      assert dir.files == before[temp := Document(bundle)];
      visited := visited + [dir.files];
      if io.fault == SyncFault || io.fault == CloseFault || io.fault == RenameFault {
        RemoveTemp(temp, io);
        return Some(WriteFailed(io.fault)), visited + [dir.files];
      }
      TempIsNoBundle(host, meta.refId, io.suffix, meta.refId);
      dir.files := (dir.files - {temp})[path := dir.files[temp]];
      assert dir.files == before[path := Document(bundle)];
      RemoveTemp(temp, io);
      assert dir.files == before[path := Document(bundle)];
      return None, visited + [dir.files];
    }

    method Read(cfg: Config, ref: string, readable: bool) returns (r: Result<Opened, Error>)
      ensures r == TryRead(host, Vault(cfg, dir.files), ref, readable)
    {
      if !readable {
        return Err(ReadFailed);
      }
      var name := BundleName(host, ref);
      if name !in dir.files {
        return Err(NoSuchFile);
      }
      if dir.files[name].Garbage? {
        return Err(PartialBundle);
      }
      var bundle := dir.files[name].bundle;
      if bundle.meta.kekRef != cfg.kekRef || bundle.meta.kekVersion != cfg.kekVersion {
        return Err(StaleKek);
      }
      var material := Decrypt(host, cfg, bundle);
      if material.Err? {
        return Err(material.error);
      }
      return Ok(Opened(bundle, material.value));
    }

    method Create(ref: string, accountRef: string, deviceRef: string, material: Material, now: int, io: WriteIo,
                  clock: int)
      returns (r: Result<Metadata, Error>)
      requires HexNames(host)
      modifies dir
      ensures (State(), r) == Call(host, old(State()), Op.Create(ref, accountRef, deviceRef, material, now, io), clock)
    {
      if ref == "" {
        return Err(RefRequired);
      }
      var t := NonZeroTime(now, clock);
      var meta := Metadata(cfg.backendId, ref, cfg.schemaVersion, cfg.kekRef, cfg.kekVersion,
                           t, t, ZERO_TIME, Active, accountRef, deviceRef);
      var error, _ := WriteBundle(cfg, meta, material, io);
      if error.Some? {
        return Err(error.value);
      }
      return Ok(meta);
    }

    method Restore(ref: string, readable: bool, clock: int) returns (r: Result<Metadata, Error>)
      ensures (State(), r) == Call(host, State(), Op.Restore(ref, readable), clock)
    {
      if ref == "" {
        return Err(RefRequired);
      }
      var found := Read(cfg, ref, readable);
      if found.Err? {
        return Err(found.error);
      }
      if found.value.bundle.meta.state == Revoked {
        return Err(RevokedRef);
      }
      return Ok(found.value.bundle.meta);
    }

    method Inspect(ref: string, readable: bool, clock: int) returns (r: Result<Metadata, Error>)
      ensures (State(), r) == Call(host, State(), Op.Inspect(ref, readable), clock)
    {
      if ref == "" {
        return Err(RefRequired);
      }
      var found := Read(cfg, ref, readable);
      if found.Err? {
        return Err(found.error);
      }
      return Ok(found.value.bundle.meta);
    }

    /** Reseals one bundle under a new KEK and moves the whole store to that KEK. */
    method Rotate(ref: string, expected: string, newKekRef: string, newVersion: string, now: int, readable: bool,
                  io: WriteIo, clock: int)
      returns (r: Result<Metadata, Error>)
      requires HexNames(host)
      modifies this`cfg, dir
      ensures (State(), r)
           == Call(host, old(State()), Op.Rotate(ref, expected, newKekRef, newVersion, now, readable, io), clock)
    {
      if ref == "" {
        return Err(RefRequired);
      }
      if expected == "" {
        return Err(ExpectedVersionRequired);
      }
      if newVersion == "" {
        return Err(NewVersionRequired);
      }
      var next := cfg;
      var found := Read(next, ref, readable);
      if found.Err? {
        return Err(found.error);
      }
      var meta := found.value.bundle.meta;
      if meta.state == Revoked {
        return Err(RevokedRef);
      }
      if meta.kekVersion != expected {
        return Err(RotateConflict);
      }
      var kekRef := newKekRef;
      if kekRef == "" {
        kekRef := next.kekRef;
      }
      next := next.(kekRef := kekRef, kekVersion := newVersion);
      meta := meta.(kekRef := kekRef, kekVersion := newVersion);
      meta := meta.(rotatedAt := NonZeroTime(now, clock));
      var error, _ := WriteBundle(next, meta, found.value.material, io);
      if error.Some? {
        return Err(error.value);
      }
      cfg := next;
      return Ok(meta);
    }

    method Revoke(ref: string, now: int, readable: bool, io: WriteIo, clock: int)
      returns (r: Result<Metadata, Error>)
      requires HexNames(host)
      modifies dir
      ensures (State(), r) == Call(host, old(State()), Op.Revoke(ref, now, readable, io), clock)
    {
      if ref == "" {
        return Err(RefRequired);
      }
      var found := Read(cfg, ref, readable);
      if found.Err? {
        return Err(found.error);
      }
      var meta := found.value.bundle.meta;
      meta := meta.(state := Revoked, revokedAt := NonZeroTime(now, clock));
      var error, _ := WriteBundle(cfg, meta, found.value.material, io);
      if error.Some? {
        return Err(error.value);
      }
      return Ok(meta);
    }
  }
}
