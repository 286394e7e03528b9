/**
Persistent custody: Init loads a sealed seed from the configured file, or makes
one and writes it there. The write is a plain overwrite, not a rename, so a
failure in the middle of the first one leaves a torn file behind.
*/
module PersistentCustody {
  import opened Common
  import opened Refs
  import opened Sealing

  type Seed = seq<byte>

  datatype Config = Config(
    custodyRef: string, accountRef: string, backend: string, storagePath: string, keyHandle: string,
    hostSecretRef: string)

  datatype Envelope = Envelope(
    version: nat, custodyRef: string, accountRef: string, backend: string, keyHandle: string, hostSecretRef: string,
    nonce: nat, ciphertext: Sealed<Seed>)

  datatype Content = Garbage | Document(envelope: Envelope)

  type Files = map<string, Content>

  /** What Init registers under the custody ref. */
  datatype Record = Record(config: Config, seed: Seed)

  datatype Host = Host(files: Files, records: map<string, Record>)

  /** How much of the file a failing write leaves behind. */
  datatype Landed = Nothing | Part | Everything

  datatype Fault = NoFault | ReadFault | EntropyFault | MkdirFault | WriteFault(landed: Landed)

  /** Randomness and failures one Init meets. */
  datatype Io = Io(seed: Seed, nonce: nat, fault: Fault)

  datatype Error =
    | NoHostSecret | ReadFailed | Undecodable | UnsupportedVersion(version: nat) | RefsDiffer | AuthenticationFailed
    | EntropyFailed | MkdirFailed | WriteFailed | LabelRequired | NotRegistered(ref: string)

  type Resolver = string -> Option<Secret>

  function Aad(c: Config): string {
    Join4(c.custodyRef, c.accountRef, c.keyHandle, c.hostSecretRef)
  }

  /** The four refs a stored seed is bound to; backend and path are not among them. */
  predicate SameRefs(c: Config, d: Config) {
    && c.custodyRef == d.custodyRef && c.accountRef == d.accountRef
    && c.keyHandle == d.keyHandle && c.hostSecretRef == d.hostSecretRef
  }

  function EncryptSeed(c: Config, key: Secret, io: Io): Envelope {
    Envelope(1, c.custodyRef, c.accountRef, c.backend, c.keyHandle, c.hostSecretRef, io.nonce,
             Sealed(key, io.nonce, Aad(c), io.seed))
  }

  function DecryptSeed(content: Content, c: Config, key: Secret): Result<Seed, Error> {
    match content
    case Garbage => Err(Undecodable)
    case Document(e) =>
      if e.version != 1 then Err(UnsupportedVersion(e.version))
      else if e.custodyRef != c.custodyRef || e.accountRef != c.accountRef || e.keyHandle != c.keyHandle
              || e.hostSecretRef != c.hostSecretRef then Err(RefsDiffer)
      else match Open(key, e.nonce, Aad(c), e.ciphertext)
        case None => Err(AuthenticationFailed)
        case Some(seed) => Ok(seed)
  }

  function LoadOrCreate(files: Files, c: Config, key: Secret, io: Io): (Files, Result<Seed, Error>) {
    if io.fault.ReadFault? then (files, Err(ReadFailed))
    else if c.storagePath in files then (files, DecryptSeed(files[c.storagePath], c, key))
    else match io.fault
      case EntropyFault => (files, Err(EntropyFailed))
      case MkdirFault => (files, Err(MkdirFailed))
      case WriteFault(Nothing) => (files, Err(WriteFailed))
      case WriteFault(Part) => (files[c.storagePath := Garbage], Err(WriteFailed))
      case WriteFault(Everything) => (files[c.storagePath := Document(EncryptSeed(c, key, io))], Err(WriteFailed))
      case _ => (files[c.storagePath := Document(EncryptSeed(c, key, io))], Ok(io.seed))
  }

  function Init(resolve: Resolver, h: Host, c: Config, io: Io): (Host, Result<Seed, Error>) {
    match resolve(c.hostSecretRef)
    case None => (h, Err(NoHostSecret))
    case Some(key) =>
      var (files, seed) := LoadOrCreate(h.files, c, key, io);
      (Host(files, if seed.Ok? then h.records[c.custodyRef := Record(c, seed.value)] else h.records), seed)
  }

  /** HMAC, symbolically: the tag names its key and its message. */
  datatype DerivedKey = Hmac(key: Seed, usage: string)

  function DeriveKey(h: Host, ref: string, usage: string): Result<DerivedKey, Error> {
    if usage == "" then Err(LabelRequired)
    else if ref !in h.records then Err(NotRegistered(ref))
    else Ok(Hmac(h.records[ref].seed, usage))
  }

  /** The plugin's process: files outlive it, records do not. */
  class CustodyProcess {
    const resolve: Resolver
    var files: Files
    var records: map<string, Record>

    constructor (resolve: Resolver, files: Files)
      ensures this.resolve == resolve && State() == Host(files, map[])
    {
      this.resolve, this.files, this.records := resolve, files, map[];
    }

    ghost function State(): Host
      reads this
    {
      Host(files, records)
    }

    method LoadOrCreateSeed(c: Config, key: Secret, io: Io) returns (r: Result<Seed, Error>)
      modifies this`files
      ensures (files, r) == LoadOrCreate(old(files), c, key, io)
    {
      if io.fault.ReadFault? {
        return Err(ReadFailed);
      }
      if c.storagePath in files {
        return DecryptSeed(files[c.storagePath], c, key);
      }
      if io.fault.EntropyFault? {
        return Err(EntropyFailed);
      }
      var raw := EncryptSeed(c, key, io);
      if io.fault.MkdirFault? {
        return Err(MkdirFailed);
      }
      if io.fault.WriteFault? {
        match io.fault.landed {
          case Nothing =>
          case Part => files := files[c.storagePath := Garbage];
          case Everything => files := files[c.storagePath := Document(raw)];
        }
        return Err(WriteFailed);
      }
      files := files[c.storagePath := Document(raw)];
      return Ok(io.seed);
    }

    method InitModule(c: Config, io: Io) returns (r: Result<Seed, Error>)
      modifies this
      ensures (State(), r) == Init(resolve, old(State()), c, io)
    {
      var secret := resolve(c.hostSecretRef);
      if secret.None? {
        return Err(NoHostSecret);
      }
      r := LoadOrCreateSeed(c, secret.value, io);
      if r.Ok? {
        records := records[c.custodyRef := Record(c, r.value)];
      }
    }
  }

  // ---------- what one Init answers ----------

  /** A stored seed opens for a configuration exactly under version 1, its own four refs, and the right key. */
  lemma DecryptMeaning(content: Content, c: Config, key: Secret)
    ensures DecryptSeed(content, c, key) ==
      match content
      case Garbage => Err(Undecodable)
      case Document(e) =>
        var seed := Open(key, e.nonce, Join4(c.custodyRef, c.accountRef, c.keyHandle, c.hostSecretRef), e.ciphertext);
        match Demand(e.version == 1, UnsupportedVersion(e.version),
              Demand((e.custodyRef, e.accountRef, e.keyHandle, e.hostSecretRef)
                       == (c.custodyRef, c.accountRef, c.keyHandle, c.hostSecretRef), RefsDiffer,
              Demand(seed.Some?, AuthenticationFailed, None)))
        case Some(e) => Err(e)
        case None => Ok(seed.value)
  {}

  /** What a first Init writes: version 1, all the refs, and the seed sealed under the four that bind it. */
  function Written(c: Config, key: Secret, io: Io): Content {
    Document(Envelope(
      version := 1, custodyRef := c.custodyRef, accountRef := c.accountRef, backend := c.backend,
      keyHandle := c.keyHandle, hostSecretRef := c.hostSecretRef, nonce := io.nonce,
      ciphertext := Sealed(key, io.nonce, Join4(c.custodyRef, c.accountRef, c.keyHandle, c.hostSecretRef), io.seed)))
  }

  /** One Init: why it fails, what it answers, and what it leaves in the files and the records. */
  lemma InitMeaning(resolve: Resolver, h: Host, c: Config, io: Io)
    ensures var (after, answer) := Init(resolve, h, c, io);
      && after.records == (if answer.Ok? then h.records[c.custodyRef := Record(c, answer.value)] else h.records)
      && match resolve(c.hostSecretRef)
         case None => answer == Err(NoHostSecret) && after.files == h.files
         case Some(key) =>
           if io.fault.ReadFault? then answer == Err(ReadFailed) && after.files == h.files
           else if c.storagePath in h.files then
             answer == DecryptSeed(h.files[c.storagePath], c, key) && after.files == h.files
           else match io.fault
             case EntropyFault => answer == Err(EntropyFailed) && after.files == h.files
             case MkdirFault => answer == Err(MkdirFailed) && after.files == h.files
             case WriteFault(landed) =>
               && answer == Err(WriteFailed)
               && after.files == (match landed
                                  case Nothing => h.files
                                  case Part => h.files[c.storagePath := Garbage]
                                  case Everything => h.files[c.storagePath := Written(c, key, io)])
             case _ => answer == Ok(io.seed) && after.files == h.files[c.storagePath := Written(c, key, io)]
  {}

  /** Keys are derived from the seed of the record, for any label but the empty one. */
  lemma DeriveMeaning(h: Host, ref: string, usage: string)
    ensures var answer := DeriveKey(h, ref, usage);
      && (answer.Ok? <==> usage != "" && ref in h.records)
      && (answer.Ok? ==> answer.value == Hmac(h.records[ref].seed, usage))
      && (usage == "" ==> answer == Err(LabelRequired))
  {}

  // ---------- runs ----------

  datatype Event = Inits(config: Config, io: Io) | Restarts

  function Next(resolve: Resolver, h: Host, e: Event): Host {
    match e
    case Inits(c, io) => Init(resolve, h, c, io).0
    case Restarts => h.(records := map[])
  }

  function After(resolve: Resolver, h: Host, es: seq<Event>): Host
    decreases |es|
  {
    if es == [] then h else After(resolve, Next(resolve, h, es[0]), es[1..])
  }

  /** A restart forgets every record and keeps every file: no key can be derived until the next Init. */
  lemma RestartForgetsKeys(resolve: Resolver, h: Host, ref: string, usage: string)
    requires usage != ""
    ensures Next(resolve, h, Restarts).files == h.files
    ensures DeriveKey(Next(resolve, h, Restarts), ref, usage) == Err(NotRegistered(ref))
  {}

  /** A file that exists is never written again, by any Init of any configuration. */
  lemma {:induction false} FilesAreFrozen(resolve: Resolver, h: Host, es: seq<Event>, path: string)
    requires path in h.files
    ensures path in After(resolve, h, es).files && After(resolve, h, es).files[path] == h.files[path]
    decreases |es|
  {
    if es != [] {
      FilesAreFrozen(resolve, Next(resolve, h, es[0]), es[1..], path);
    }
  }

  /** After a successful Init the file unseals, for that configuration, to the seed it returned. */
  lemma InitSettlesFile(resolve: Resolver, h: Host, c: Config, io: Io)
    requires Init(resolve, h, c, io).1.Ok?
    ensures var (h', seed) := Init(resolve, h, c, io);
      && resolve(c.hostSecretRef).Some? && c.storagePath in h'.files
      && DecryptSeed(h'.files[c.storagePath], c, resolve(c.hostSecretRef).value) == seed
  {}

  /**
  Restart keeps keys. Once an Init has succeeded on a path, then in whatever
  follows, an Init on that path succeeds only for the same four refs, and then
  with the same seed; if the refs are the same, only reading the file or
  resolving the secret can stop it.
  */
  lemma SeedsStick(resolve: Resolver, h: Host, c: Config, io: Io, es: seq<Event>, d: Config, later: Io)
    requires Init(resolve, h, c, io).1.Ok? && d.storagePath == c.storagePath
    ensures var (h', seed) := Init(resolve, h, c, io);
      var again := Init(resolve, After(resolve, h', es), d, later).1;
      && (again.Ok? ==> SameRefs(c, d) && again == seed)
      && (SameRefs(c, d) && !later.fault.ReadFault? ==> again == seed)
  {
    InitSettlesFile(resolve, h, c, io);
    FilesAreFrozen(resolve, Init(resolve, h, c, io).0, es, c.storagePath);
  }

  /** A configuration that differs in any bound ref fails and leaves every file as it is. */
  lemma OtherRefsAreRefused(resolve: Resolver, h: Host, c: Config, io: Io, es: seq<Event>, d: Config, later: Io)
    requires Init(resolve, h, c, io).1.Ok? && d.storagePath == c.storagePath && !SameRefs(c, d)
    ensures var now := After(resolve, Init(resolve, h, c, io).0, es);
      Init(resolve, now, d, later).1.Err? && Init(resolve, now, d, later).0 == now
  {
    SeedsStick(resolve, h, c, io, es, d, later);
    InitSettlesFile(resolve, h, c, io);
    FilesAreFrozen(resolve, Init(resolve, h, c, io).0, es, c.storagePath);
  }

  /** Any number of restarts and Inits later, the configuration still derives the same key for every label. */
  lemma DerivedKeysStick(resolve: Resolver, h: Host, c: Config, io: Io, es: seq<Event>, later: Io, usage: string)
    requires Init(resolve, h, c, io).1.Ok?
    requires Init(resolve, After(resolve, Init(resolve, h, c, io).0, es), c, later).1.Ok?
    ensures var first := Init(resolve, h, c, io).0;
      var second := Init(resolve, After(resolve, first, es), c, later).0;
      && DeriveKey(first, c.custodyRef, usage) == DeriveKey(second, c.custodyRef, usage)
      && (usage != "" ==> DeriveKey(first, c.custodyRef, usage) == Ok(Hmac(Init(resolve, h, c, io).1.value, usage)))
  {
    SeedsStick(resolve, h, c, io, es, c, later);
  }

  /** Every Init of this custody ref uses this path. */
  predicate UsesPath(e: Event, custodyRef: string, path: string) {
    e.Inits? && e.config.custodyRef == custodyRef ==> e.config.storagePath == path
  }

  /** The seed a file holds is the only one that any Init on its path can answer. */
  lemma InitAnswersFileSeed(resolve: Resolver, h: Host, c: Config, key: Secret, seed: Seed, d: Config, io: Io)
    requires resolve(c.hostSecretRef) == Some(key) && c.storagePath in h.files && d.storagePath == c.storagePath
    requires DecryptSeed(h.files[c.storagePath], c, key) == Ok(seed)
    ensures Init(resolve, h, d, io).1.Ok? ==> Init(resolve, h, d, io).1 == Ok(seed)
  {}

  lemma {:induction false} RecordKeepsSeed(resolve: Resolver, h: Host, c: Config, key: Secret, seed: Seed,
                                           es: seq<Event>)
    requires resolve(c.hostSecretRef) == Some(key) && c.storagePath in h.files
    requires DecryptSeed(h.files[c.storagePath], c, key) == Ok(seed)
    requires c.custodyRef in h.records ==> h.records[c.custodyRef].seed == seed
    requires forall e | e in es :: UsesPath(e, c.custodyRef, c.storagePath)
    ensures var now := After(resolve, h, es); c.custodyRef in now.records ==> now.records[c.custodyRef].seed == seed
    decreases |es|
  {
    if es != [] {
      var e := es[0];
      assert UsesPath(e, c.custodyRef, c.storagePath);
      if e.Inits? && e.config.custodyRef == c.custodyRef {
        InitAnswersFileSeed(resolve, h, c, key, seed, e.config, e.io);
      }
      RecordKeepsSeed(resolve, Next(resolve, h, e), c, key, seed, es[1..]);
    }
  }

  /**
  After a first successful Init, at every moment of every run in which the
  custody ref is always initialised on one path, deriving a key answers the
  same key for every label, or that nothing is registered.
  */
  lemma DerivedKeysHoldThroughout(resolve: Resolver, h: Host, c: Config, io: Io, es: seq<Event>, usage: string)
    requires Init(resolve, h, c, io).1.Ok?
    requires forall e | e in es :: UsesPath(e, c.custodyRef, c.storagePath)
    ensures var (h', seed) := Init(resolve, h, c, io);
      var now := After(resolve, h', es);
      DeriveKey(now, c.custodyRef, usage) ==
        if c.custodyRef in now.records then DeriveKey(h', c.custodyRef, usage)
        else if usage == "" then Err(LabelRequired)
        else Err(NotRegistered(c.custodyRef))
  {
    InitSettlesFile(resolve, h, c, io);
    var (h', seed) := Init(resolve, h, c, io);
    RecordKeepsSeed(resolve, h', c, resolve(c.hostSecretRef).value, seed.value, es);
  }

  /**
  The one path is needed: an Init of the same custody ref on an unused path
  succeeds, silently, and the derived keys change exactly when its fresh seed
  is another one.
  */
  lemma AnotherPathReplacesTheKey(resolve: Resolver, h: Host, c: Config, io: Io, path: string, other: Io, usage: string)
    requires Init(resolve, h, c, io).1.Ok? && usage != ""
    requires path != c.storagePath && path !in h.files && other.fault == NoFault
    ensures var first := Init(resolve, h, c, io).0;
      var (second, answer) := Init(resolve, first, c.(storagePath := path), other);
      && answer == Ok(other.seed)
      && (DeriveKey(second, c.custodyRef, usage) == DeriveKey(first, c.custodyRef, usage)
          <==> other.seed == Init(resolve, h, c, io).1.value)
  {}

  /** The first write is not atomic: torn once, the path refuses every configuration from then on. */
  lemma TornFileNeverHeals(resolve: Resolver, h: Host, c: Config, io: Io, es: seq<Event>, d: Config, later: Io)
    requires resolve(c.hostSecretRef).Some? && c.storagePath !in h.files && io.fault == WriteFault(Part)
    requires d.storagePath == c.storagePath
    ensures Init(resolve, h, c, io).1 == Err(WriteFailed)
    ensures Init(resolve, After(resolve, Init(resolve, h, c, io).0, es), d, later).1.Err?
  {
    FilesAreFrozen(resolve, Init(resolve, h, c, io).0, es, c.storagePath);
  }

  /** After these events some Init on the path succeeds, with this configuration. */
  predicate Recovers(resolve: Resolver, h: Host, es: seq<Event>, d: Config, later: Io, path: string) {
    d.storagePath == path && Init(resolve, After(resolve, h, es), d, later).1.Ok?
  }

  /**
  A failed first Init leaves the path usable exactly when its write did not
  tear; whatever the failure was, the same configuration can then succeed.
  */
  lemma FailedFirstInitHealsIffNotTorn(resolve: Resolver, h: Host, c: Config, io: Io)
    requires resolve(c.hostSecretRef).Some? && c.storagePath !in h.files && Init(resolve, h, c, io).1.Err?
    ensures (exists es, d, later :: Recovers(resolve, Init(resolve, h, c, io).0, es, d, later, c.storagePath))
       <==> io.fault != WriteFault(Part)
  {
    var h' := Init(resolve, h, c, io).0;
    if io.fault == WriteFault(Part) {
      forall es, d, later
        ensures !Recovers(resolve, h', es, d, later, c.storagePath)
      {
        if d.storagePath == c.storagePath {
          TornFileNeverHeals(resolve, h, c, io, es, d, later);
        }
      }
    } else {
      assert Recovers(resolve, h', [], c, io.(fault := NoFault), c.storagePath);
    }
  }

  predicate NulFree(c: Config) {
    NulFree4(c.custodyRef, c.accountRef, c.keyHandle, c.hostSecretRef)
  }

  /** The stored seed of `c` under a header rewritten to match `d`. */
  function Forged(c: Config, d: Config, key: Secret, io: Io): Envelope {
    EncryptSeed(c, key, io).(custodyRef := d.custodyRef, accountRef := d.accountRef, keyHandle := d.keyHandle,
                             hostSecretRef := d.hostSecretRef)
  }

  /**
  The seal itself binds the four refs: even under a rewritten header a stored
  seed opens for another configuration exactly when all four agree.
  */
  lemma SeedOpensOnlyForItsRefs(c: Config, d: Config, key: Secret, io: Io)
    requires NulFree(c)
    ensures DecryptSeed(Document(Forged(c, d, key, io)), d, key).Ok? <==> SameRefs(c, d)
  {
    if Aad(c) == Aad(d) {
      NulFreeJoinIsUnique(c.custodyRef, c.accountRef, c.keyHandle, c.hostSecretRef,
                          d.custodyRef, d.accountRef, d.keyHandle, d.hostSecretRef);
    }
  }

  /** That binding holds exactly for refs without a NUL: any other seed opens for some other refs too. */
  lemma SealBindsRefsIffNulFree(c: Config, key: Secret, io: Io)
    ensures NulFree(c) <==> forall d | DecryptSeed(Document(Forged(c, d, key, io)), d, key).Ok? :: SameRefs(c, d)
  {
    if NulFree(c) {
      forall d | DecryptSeed(Document(Forged(c, d, key, io)), d, key).Ok?
        ensures SameRefs(c, d)
      {
        SeedOpensOnlyForItsRefs(c, d, key, io);
      }
    } else {
      var p, q, r, s := NulMakesJoinAmbiguous(c.custodyRef, c.accountRef, c.keyHandle, c.hostSecretRef);
      var d := c.(custodyRef := p, accountRef := q, keyHandle := r, hostSecretRef := s);
      assert DecryptSeed(Document(Forged(c, d, key, io)), d, key).Ok?;
    }
  }
}
