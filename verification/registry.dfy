/**
The account and custody registries: modules initialise in any order, and two
separately written resolvers turn an account and a request into refs.
*/
module Registries {
  import opened Common
  import opened Refs
  import PersistentCustody

  datatype KeyCustody = KeyCustody(ref: string, accountRef: string, secretRefs: seq<string>, keyRef: string)

  /** `custody` is what the registry held for `custodyRef` when the account module initialised. */
  datatype Account = Account(
    ref: string, deviceRef: string, custodyRef: string, credentialRef: string,
    consentRef: string, auditRef: string, custody: Option<KeyCustody>)

  datatype Tables = Tables(custodies: map<string, KeyCustody>, accounts: map<string, Account>)

  datatype KeyCustodyConfig = KeyCustodyConfig(
    custodyRef: string, accountRef: string, secretRefs: seq<string>, keyRef: string, allowExportable: bool)

  /** The custody's own configuration, and what decides whether its backend may be used. */
  datatype PersistentConfig = PersistentConfig(
    core: PersistentCustody.Config, production: bool, allowLocalFile: bool, allowTest: bool)

  datatype AccountConfig = AccountConfig(
    accountRef: string, deviceRef: string, custodyRef: string, credentialRef: string, consentRef: string,
    auditRef: string)

  datatype Error =
    | CustodyRefRequired | AccountRefRequired | ExportableDenied | KeyOrSecretsRequired
    | StoragePathRequired | KeyHandleRequired | HostSecretRefRequired
    | ProductionFile | LocalFileDenied | TestBackendDenied | UnsupportedBackend(backend: string)
    | SeedUnavailable(cause: PersistentCustody.Error)
    | AccountNotRegistered(ref: string) | CustodyNotRegistered(ref: string)
    | CustodyBelongsTo(ref: string, accountRef: string)

  // ---------- modules ----------

  /** What loading or creating the seed answered, as PersistentCustody.Init says. */
  type SeedAnswer = Result<PersistentCustody.Seed, PersistentCustody.Error>

  const LOCAL_FILE := "local_file"
  const TEST_FILE := "test_file"

  function PersistentConfigError(c: PersistentConfig): Option<Error> {
    if c.core.custodyRef == "" then Some(CustodyRefRequired)
    else if c.core.accountRef == "" then Some(AccountRefRequired)
    else if c.core.storagePath == "" then Some(StoragePathRequired)
    else if c.core.keyHandle == "" then Some(KeyHandleRequired)
    else if c.core.hostSecretRef == "" then Some(HostSecretRefRequired)
    else if c.core.backend == LOCAL_FILE then
      if c.production then Some(ProductionFile) else if !c.allowLocalFile then Some(LocalFileDenied) else None
    else if c.core.backend == TEST_FILE then
      if c.production then Some(ProductionFile) else if !c.allowTest then Some(TestBackendDenied) else None
    else Some(UnsupportedBackend(c.core.backend))
  }

  datatype Init =
    | InitKeyCustody(key: KeyCustodyConfig)
    | InitPersistent(persistent: PersistentConfig, seed: SeedAnswer)
    | InitAccount(account: AccountConfig)

  function InitError(t: Tables, i: Init): Option<Error> {
    match i
    case InitKeyCustody(c) =>
      if c.custodyRef == "" then Some(CustodyRefRequired)
      else if c.accountRef == "" then Some(AccountRefRequired)
      else if c.secretRefs != [] && !c.allowExportable then Some(ExportableDenied)
      else if c.keyRef == "" && c.secretRefs == [] then Some(KeyOrSecretsRequired)
      else None
    case InitPersistent(c, seed) =>
      if PersistentConfigError(c).Some? then PersistentConfigError(c)
      else if seed.Err? then Some(SeedUnavailable(seed.error))
      else None
    case InitAccount(c) =>
      if c.accountRef == "" then Some(AccountRefRequired)
      else if c.custodyRef != "" && c.custodyRef in t.custodies && t.custodies[c.custodyRef].accountRef != ""
              && t.custodies[c.custodyRef].accountRef != c.accountRef then
        Some(CustodyBelongsTo(t.custodies[c.custodyRef].ref, t.custodies[c.custodyRef].accountRef))
      else None
  }

  function Snapshot(t: Tables, custodyRef: string): Option<KeyCustody> {
    if custodyRef != "" && custodyRef in t.custodies then Some(t.custodies[custodyRef]) else None
  }

  /** Constructor and Init of one module: a later module with the same ref replaces the earlier one. */
  function Apply(t: Tables, i: Init): Tables {
    if InitError(t, i).Some? then t
    else match i
      case InitKeyCustody(c) =>
        t.(custodies := t.custodies[c.custodyRef := KeyCustody(c.custodyRef, c.accountRef, c.secretRefs, c.keyRef)])
      case InitPersistent(c, _) =>
        t.(custodies := t.custodies[c.core.custodyRef :=
             KeyCustody(c.core.custodyRef, c.core.accountRef, [], c.core.keyHandle)])
      case InitAccount(c) =>
        t.(accounts := t.accounts[c.accountRef := Account(c.accountRef, c.deviceRef, c.custodyRef, c.credentialRef,
                                                          c.consentRef, c.auditRef, Snapshot(t, c.custodyRef))])
  }

  function ApplyAll(t: Tables, inits: seq<Init>): Tables
    decreases |inits|
  {
    if inits == [] then t else ApplyAll(Apply(t, inits[0]), inits[1..])
  }

  const EMPTY_TABLES := Tables(map[], map[])

  // ---------- the two resolvers ----------

  /** The account ref is already resolved against the step's configuration. */
  datatype Request = Request(
    accountRef: string, deviceRef: string, custodyRef: string, idempotencyKey: string, consentRef: string,
    auditRef: string, credentialRef: string, keyRef: string)

  datatype Warning = AccountRefNotRegistered | CustodyRefNotRegistered | CustodyRefMissing

  /** What the prepare steps continue with: the request with its gaps filled, and the readiness report. */
  datatype Prepared = Prepared(fields: Request, attested: Option<string>, warnings: seq<Warning>)

  /** What the service-test steps ask of their client besides: expiry from the step or its input, a challenge. */
  datatype Extras = Extras(configExpired: bool, expired: bool, challengeRef: string, operation: string)

  datatype ClientOption = WithExpiredCredentials | WithChallenge(operation: string, challengeRef: string)

  /** What the service-test steps continue with. */
  datatype TestContext = TestContext(fields: Request, custody: Option<KeyCustody>, options: seq<ClientOption>)

  function ClientOptions(x: Extras): seq<ClientOption> {
    (if x.expired || x.configExpired then [WithExpiredCredentials] else [])
      + (if x.challengeRef != "" then [WithChallenge(x.operation, x.challengeRef)] else [])
  }

  /** resolveServicePrepareReadiness. */
  function Prepare(t: Tables, q: Request): Result<Prepared, Error> {
    var accountRegistered := q.accountRef != "" && q.accountRef in t.accounts;
    var f := if accountRegistered then InheritAccount(q, t.accounts[q.accountRef]) else q;
    var custodyRegistered := f.custodyRef != "" && f.custodyRef in t.custodies;
    if f.custodyRef != "" && accountRegistered && !custodyRegistered then Err(CustodyNotRegistered(f.custodyRef))
    else if custodyRegistered && f.accountRef != "" && t.custodies[f.custodyRef].accountRef != ""
            && t.custodies[f.custodyRef].accountRef != f.accountRef then
      Err(CustodyBelongsTo(t.custodies[f.custodyRef].ref, t.custodies[f.custodyRef].accountRef))
    else
      var g := if custodyRegistered then InheritCustody(f, t.custodies[f.custodyRef]) else f;
      Ok(Prepared(
        g, if custodyRegistered && g.keyRef != "" then Some(t.custodies[f.custodyRef].ref) else None,
        (if g.accountRef != "" && !accountRegistered then [AccountRefNotRegistered] else [])
          + (if g.custodyRef != "" && !custodyRegistered then [CustodyRefNotRegistered] else [])
          + (if g.custodyRef == "" then [CustodyRefMissing] else [])))
  }

  function InheritAccount(q: Request, account: Account): Request {
    q.(deviceRef := FirstNonEmpty(q.deviceRef, account.deviceRef),
       consentRef := FirstNonEmpty(q.consentRef, account.consentRef),
       auditRef := FirstNonEmpty(q.auditRef, account.auditRef),
       credentialRef := FirstNonEmpty(q.credentialRef, account.credentialRef),
       custodyRef := if q.custodyRef != "" then q.custodyRef
                     else if account.custody.Some? then account.custody.value.ref
                     else account.custodyRef)
  }

  function InheritCustody(f: Request, custody: KeyCustody): Request {
    f.(keyRef := FirstNonEmpty(f.keyRef, custody.keyRef), accountRef := FirstNonEmpty(f.accountRef, custody.accountRef))
  }

  /** serviceTestRequestContext. */
  function TestContextOf(t: Tables, q: Request, x: Extras): Result<TestContext, Error> {
    if q.accountRef == "" then Err(AccountRefRequired)
    else if q.accountRef !in t.accounts then Err(AccountNotRegistered(q.accountRef))
    else
      var account := t.accounts[q.accountRef];
      var custodyRef := FirstNonEmpty(q.custodyRef, account.custodyRef);
      if custodyRef != "" && custodyRef !in t.custodies then Err(CustodyNotRegistered(custodyRef))
      else if custodyRef != "" && t.custodies[custodyRef].accountRef != account.ref then
        Err(CustodyBelongsTo(t.custodies[custodyRef].ref, t.custodies[custodyRef].accountRef))
      else
        var custody := if custodyRef != "" then Some(t.custodies[custodyRef]) else account.custody;
        Ok(TestContext(
          Request(account.ref, FirstNonEmpty(q.deviceRef, account.deviceRef), custodyRef, q.idempotencyKey,
                  FirstNonEmpty(q.consentRef, account.consentRef), FirstNonEmpty(q.auditRef, account.auditRef),
                  FirstNonEmpty(q.credentialRef, account.credentialRef),
                  if q.keyRef == "" && custody.Some? then custody.value.keyRef else q.keyRef),
          custody, ClientOptions(x)))
  }

  class Registry {
    var custodies: map<string, KeyCustody>
    var accounts: map<string, Account>

    constructor ()
      ensures State() == EMPTY_TABLES
    {
      custodies, accounts := map[], map[];
    }

    ghost function State(): Tables
      reads this
    {
      Tables(custodies, accounts)
    }

    method RegisterKeyCustody(c: KeyCustodyConfig) returns (error: Option<Error>)
      modifies this
      ensures State() == Apply(old(State()), InitKeyCustody(c))
      ensures error == InitError(old(State()), InitKeyCustody(c))
    {
      if c.custodyRef == "" {
        return Some(CustodyRefRequired);
      }
      if c.accountRef == "" {
        return Some(AccountRefRequired);
      }
      if c.secretRefs != [] && !c.allowExportable {
        return Some(ExportableDenied);
      }
      if c.keyRef == "" && c.secretRefs == [] {
        return Some(KeyOrSecretsRequired);
      }
      custodies := custodies[c.custodyRef := KeyCustody(c.custodyRef, c.accountRef, c.secretRefs, c.keyRef)];
      return None;
    }

    /** The constructor's checks: required fields, then the backend's opt-ins. */
    method CheckPersistent(c: PersistentConfig) returns (error: Option<Error>)
      ensures error == PersistentConfigError(c)
    {
      if c.core.custodyRef == "" {
        return Some(CustodyRefRequired);
      }
      if c.core.accountRef == "" {
        return Some(AccountRefRequired);
      }
      if c.core.storagePath == "" {
        return Some(StoragePathRequired);
      }
      if c.core.keyHandle == "" {
        return Some(KeyHandleRequired);
      }
      if c.core.hostSecretRef == "" {
        return Some(HostSecretRefRequired);
      }
      if c.core.backend == LOCAL_FILE || c.core.backend == TEST_FILE {
        if c.production {
          return Some(ProductionFile);
        }
        if c.core.backend == LOCAL_FILE && !c.allowLocalFile {
          return Some(LocalFileDenied);
        }
        if c.core.backend == TEST_FILE && !c.allowTest {
          return Some(TestBackendDenied);
        }
      } else {
        return Some(UnsupportedBackend(c.core.backend));
      }
      return None;
    }

    /** Constructor and Init: the process loads or creates the seed, and both keep what they need of it. */
    method RegisterPersistent(process: PersistentCustody.CustodyProcess, c: PersistentConfig, io: PersistentCustody.Io)
      returns (error: Option<Error>)
      modifies this, process
      ensures var (host, seed) := PersistentCustody.Init(process.resolve, old(process.State()), c.core, io);
        && process.State() == (if PersistentConfigError(c).Some? then old(process.State()) else host)
        && State() == Apply(old(State()), InitPersistent(c, seed))
        && error == InitError(old(State()), InitPersistent(c, seed))
    {
      error := CheckPersistent(c);
      if error.Some? {
        return error;
      }
      var seed := process.InitModule(c.core, io);
      if seed.Err? {
        return Some(SeedUnavailable(seed.error));
      }
      var custody := KeyCustody(c.core.custodyRef, c.core.accountRef, [], c.core.keyHandle);
      custodies := custodies[custody.ref := custody];
      return None;
    }

    method RegisterAccount(c: AccountConfig) returns (error: Option<Error>)
      modifies this
      ensures State() == Apply(old(State()), InitAccount(c))
      ensures error == InitError(old(State()), InitAccount(c))
    {
      if c.accountRef == "" {
        return Some(AccountRefRequired);
      }
      var custody: Option<KeyCustody> := None;
      if c.custodyRef != "" && c.custodyRef in custodies {
        custody := Some(custodies[c.custodyRef]);
        if custody.value.accountRef != "" && custody.value.accountRef != c.accountRef {
          return Some(CustodyBelongsTo(custody.value.ref, custody.value.accountRef));
        }
      }
      accounts := accounts[c.accountRef := Account(c.accountRef, c.deviceRef, c.custodyRef, c.credentialRef,
                                                   c.consentRef, c.auditRef, custody)];
      return None;
    }

    /** resolveServicePrepareReadiness: fills the request field by field and collects warnings. */
    method ResolvePrepare(request: Request) returns (r: Result<Prepared, Error>)
      ensures r == Prepare(State(), request)
    {
      var fields, attested, warnings := request, None, [];
      var accountRegistered := fields.accountRef != "" && fields.accountRef in accounts;
      if accountRegistered {
        var account := accounts[fields.accountRef];
        fields := fields.(deviceRef := FirstNonEmpty(fields.deviceRef, account.deviceRef));
        fields := fields.(consentRef := FirstNonEmpty(fields.consentRef, account.consentRef));
        fields := fields.(auditRef := FirstNonEmpty(fields.auditRef, account.auditRef));
        fields := fields.(credentialRef := FirstNonEmpty(fields.credentialRef, account.credentialRef));
        if fields.custodyRef == "" && account.custody.Some? {
          fields := fields.(custodyRef := account.custody.value.ref);
        } else if fields.custodyRef == "" {
          fields := fields.(custodyRef := account.custodyRef);
        }
      }
      var custodyRegistered := fields.custodyRef != "" && fields.custodyRef in custodies;
      if fields.custodyRef != "" && accountRegistered && !custodyRegistered {
        return Err(CustodyNotRegistered(fields.custodyRef));
      }
      if custodyRegistered {
        var custody := custodies[fields.custodyRef];
        if fields.accountRef != "" && custody.accountRef != "" && custody.accountRef != fields.accountRef {
          return Err(CustodyBelongsTo(custody.ref, custody.accountRef));
        }
        fields := fields.(keyRef := FirstNonEmpty(fields.keyRef, custody.keyRef));
        if fields.accountRef == "" {
          fields := fields.(accountRef := custody.accountRef);
        }
        if fields.keyRef != "" {
          attested := Some(custody.ref);
        }
      }
      if fields.accountRef != "" && !accountRegistered {
        warnings := warnings + [AccountRefNotRegistered];
      }
      if fields.custodyRef != "" && !custodyRegistered {
        warnings := warnings + [CustodyRefNotRegistered];
      }
      if fields.custodyRef == "" {
        warnings := warnings + [CustodyRefMissing];
      }
      assert warnings == (if fields.accountRef != "" && !accountRegistered then [AccountRefNotRegistered] else [])
                         + (if fields.custodyRef != "" && !custodyRegistered then [CustodyRefNotRegistered] else [])
                         + (if fields.custodyRef == "" then [CustodyRefMissing] else []);
      return Ok(Prepared(fields, attested, warnings));
    }

    /** serviceTestRequestContext: looks the account up, swaps in the registered custody, fills the metadata. */
    method TestRequestContext(request: Request, x: Extras) returns (r: Result<TestContext, Error>)
      ensures r == TestContextOf(State(), request, x)
    {
      if request.accountRef == "" {
        return Err(AccountRefRequired);
      }
      if request.accountRef !in accounts {
        return Err(AccountNotRegistered(request.accountRef));
      }
      var account := accounts[request.accountRef];
      var custodyRef := FirstNonEmpty(request.custodyRef, account.custodyRef);
      if custodyRef != "" {
        if custodyRef !in custodies {
          return Err(CustodyNotRegistered(custodyRef));
        }
        var custody := custodies[custodyRef];
        if custody.accountRef != account.ref {
          return Err(CustodyBelongsTo(custody.ref, custody.accountRef));
        }
        account := Account(account.ref, account.deviceRef, "", account.credentialRef, account.consentRef,
                           account.auditRef, Some(custody));
      }
      var fields := Request(
        account.ref, FirstNonEmpty(request.deviceRef, account.deviceRef), custodyRef, request.idempotencyKey,
        FirstNonEmpty(request.consentRef, account.consentRef), FirstNonEmpty(request.auditRef, account.auditRef),
        FirstNonEmpty(request.credentialRef, account.credentialRef), request.keyRef);
      if fields.keyRef == "" && account.custody.Some? {
        fields := fields.(keyRef := account.custody.value.keyRef);
      }
      var options: seq<ClientOption> := [];
      if x.expired || x.configExpired {
        options := options + [WithExpiredCredentials];
      }
      if x.challengeRef != "" {
        options := options + [WithChallenge(x.operation, x.challengeRef)];
      }
      assert options == ClientOptions(x);
      return Ok(TestContext(fields, account.custody, options));
    }
  }

  // ---------- what every order of initialisation keeps ----------

  /** Everything sits under its own non-empty ref; custodies name an owner; snapshots name the account's custody ref. */
  predicate Consistent(t: Tables) {
    && (forall r | r in t.custodies :: r != "" && t.custodies[r].ref == r && t.custodies[r].accountRef != "")
    && (forall a | a in t.accounts ::
          && a != "" && t.accounts[a].ref == a
          && (t.accounts[a].custody.Some? ==>
                t.accounts[a].custodyRef != "" && t.accounts[a].custody.value.ref == t.accounts[a].custodyRef))
  }

  lemma InitKeepsConsistency(t: Tables, i: Init)
    requires Consistent(t)
    ensures Consistent(Apply(t, i))
  {}

  lemma {:induction false} InitsKeepConsistency(t: Tables, inits: seq<Init>)
    requires Consistent(t)
    ensures Consistent(ApplyAll(t, inits))
    decreases |inits|
  {
    if inits != [] {
      InitKeepsConsistency(t, inits[0]);
      InitsKeepConsistency(Apply(t, inits[0]), inits[1..]);
    }
  }

  lemma ReachableIsConsistent(inits: seq<Init>)
    ensures Consistent(ApplyAll(EMPTY_TABLES, inits))
  {
    InitsKeepConsistency(EMPTY_TABLES, inits);
  }

  // ---------- the resolvers agree ----------

  /**
  In every registry state that module initialisation can reach, in any order,
  both resolvers take the same decision for a registered account: the same
  error, or the same refs and the same custody.
  */
  lemma ResolversAgree(inits: seq<Init>, q: Request, x: Extras)
    requires q.accountRef in ApplyAll(EMPTY_TABLES, inits).accounts
    ensures var t := ApplyAll(EMPTY_TABLES, inits);
      match (Prepare(t, q), TestContextOf(t, q, x))
      case (Ok(p), Ok(c)) =>
        && p.fields == c.fields
        && (c.custody.Some? <==> p.fields.custodyRef != "")
        && (c.custody.Some? ==>
              p.fields.custodyRef in t.custodies && c.custody.value == t.custodies[p.fields.custodyRef])
        && (p.attested.Some? ==> c.custody.Some? && p.attested.value == c.custody.value.ref)
      case (Err(e), Err(d)) => e == d
      case _ => false
  {
    ReachableIsConsistent(inits);
  }

  /**
  For an account nobody registered they part: the test steps refuse, the prepare
  steps refuse only another owner's custody.
  */
  lemma ResolversPartOnUnregistered(inits: seq<Init>, q: Request, x: Extras)
    requires q.accountRef !in ApplyAll(EMPTY_TABLES, inits).accounts
    ensures var t := ApplyAll(EMPTY_TABLES, inits);
      && TestContextOf(t, q, x) == Err(if q.accountRef == "" then AccountRefRequired
                                       else AccountNotRegistered(q.accountRef))
      && (Prepare(t, q).Ok? <==>
            q.accountRef == "" || q.custodyRef !in t.custodies || t.custodies[q.custodyRef].accountRef == q.accountRef)
  {
    ReachableIsConsistent(inits);
  }

  /**
  What the prepare steps then go on with: the request as it is, but for the key,
  and the account if there is none, of a registered custody; attested if there is
  a key; with a warning for each ref that is missing or not registered. An
  account taken from the custody counts as not registered even if it is.
  */
  lemma UnregisteredMeaning(inits: seq<Init>, q: Request)
    requires q.accountRef !in ApplyAll(EMPTY_TABLES, inits).accounts
    ensures var t := ApplyAll(EMPTY_TABLES, inits);
      match Prepare(t, q)
      case Err(e) =>
        && q.accountRef != "" && q.custodyRef in t.custodies && t.custodies[q.custodyRef].accountRef != q.accountRef
        && e == CustodyBelongsTo(q.custodyRef, t.custodies[q.custodyRef].accountRef)
      case Ok(p) =>
        var known := q.custodyRef in t.custodies;
        && p.fields == (if !known then q else q.(
             accountRef := if q.accountRef == "" then t.custodies[q.custodyRef].accountRef else q.accountRef,
             keyRef := if q.keyRef == "" then t.custodies[q.custodyRef].keyRef else q.keyRef))
        && p.attested == (if known && p.fields.keyRef != "" then Some(q.custodyRef) else None)
        && p.warnings == (if q.accountRef != "" || known then [AccountRefNotRegistered] else [])
                       + (if q.custodyRef == "" then [CustodyRefMissing]
                          else if known then [] else [CustodyRefNotRegistered])
  {
    ReachableIsConsistent(inits);
  }

  /**
  A resolved request is complete and owned: its own refs win, its key is the
  registered custody's, its custody is the account's, and it is attested exactly
  when there is a custody and a key. Resolution fails only for a custody that is
  not registered or another account's, and says which.
  */
  lemma ResolutionMeaning(inits: seq<Init>, q: Request)
    requires q.accountRef in ApplyAll(EMPTY_TABLES, inits).accounts
    ensures var t := ApplyAll(EMPTY_TABLES, inits);
      var account := t.accounts[q.accountRef];
      var chosen := if q.custodyRef != "" then q.custodyRef else account.custodyRef;
      match Prepare(t, q)
      case Err(e) =>
        && chosen != ""
        && if chosen !in t.custodies then e == CustodyNotRegistered(chosen)
           else t.custodies[chosen].accountRef != q.accountRef
                && e == CustodyBelongsTo(chosen, t.custodies[chosen].accountRef)
      case Ok(p) =>
        && (chosen == "" || (chosen in t.custodies && t.custodies[chosen].accountRef == q.accountRef))
        && var key := if q.keyRef != "" then q.keyRef else if chosen == "" then "" else t.custodies[chosen].keyRef;
        && p.fields == Request(
             accountRef := q.accountRef,
             deviceRef := if q.deviceRef != "" then q.deviceRef else account.deviceRef,
             custodyRef := chosen,
             idempotencyKey := q.idempotencyKey,
             consentRef := if q.consentRef != "" then q.consentRef else account.consentRef,
             auditRef := if q.auditRef != "" then q.auditRef else account.auditRef,
             credentialRef := if q.credentialRef != "" then q.credentialRef else account.credentialRef,
             keyRef := key)
        && p.attested == (if chosen != "" && key != "" then Some(chosen) else None)
        && p.warnings == (if chosen == "" then [CustodyRefMissing] else [])
  {
    ReachableIsConsistent(inits);
  }

  /** The test steps ask their client for exactly what the step and its input say, expiry first. */
  lemma OptionsMeaning(t: Tables, q: Request, x: Extras)
    requires TestContextOf(t, q, x).Ok?
    ensures TestContextOf(t, q, x).value.options ==
      if x.challengeRef == "" then (if x.expired || x.configExpired then [WithExpiredCredentials] else [])
      else if x.expired || x.configExpired then [WithExpiredCredentials, WithChallenge(x.operation, x.challengeRef)]
      else [WithChallenge(x.operation, x.challengeRef)]
  {}

  // ---------- what one Init registers ----------

  /** The custody that a module's configuration describes. */
  function Configured(custody: Init): KeyCustody
    requires !custody.InitAccount?
  {
    match custody
    case InitKeyCustody(c) =>
      KeyCustody(ref := c.custodyRef, accountRef := c.accountRef, secretRefs := c.secretRefs, keyRef := c.keyRef)
    case InitPersistent(c, _) =>
      KeyCustody(ref := c.core.custodyRef, accountRef := c.core.accountRef, secretRefs := [],
                 keyRef := c.core.keyHandle)
  }

  /** What a persistent custody demands of its backend; `others` is what may refuse it after that. */
  function BackendRefusal(c: PersistentConfig, others: Option<Error>): Option<Error> {
    Demand(c.core.backend == "local_file" || c.core.backend == "test_file", UnsupportedBackend(c.core.backend),
    Demand(!c.production, ProductionFile,
    Demand(c.core.backend == "local_file" ==> c.allowLocalFile, LocalFileDenied,
    Demand(c.core.backend == "test_file" ==> c.allowTest, TestBackendDenied, others))))
  }

  function PersistentRefusal(c: PersistentConfig, others: Option<Error>): Option<Error> {
    Demand(c.core.custodyRef != "", CustodyRefRequired,
    Demand(c.core.accountRef != "", AccountRefRequired,
    Demand(c.core.storagePath != "", StoragePathRequired,
    Demand(c.core.keyHandle != "", KeyHandleRequired,
    Demand(c.core.hostSecretRef != "", HostSecretRefRequired, BackendRefusal(c, others))))))
  }

  /** Why an Init is refused, if it is. */
  function Refusal(t: Tables, i: Init): Option<Error> {
    match i
    case InitKeyCustody(c) =>
      Demand(c.custodyRef != "", CustodyRefRequired,
      Demand(c.accountRef != "", AccountRefRequired,
      Demand(c.secretRefs == [] || c.allowExportable, ExportableDenied,
      Demand(c.keyRef != "" || c.secretRefs != [], KeyOrSecretsRequired, None))))
    case InitPersistent(c, seed) =>
      PersistentRefusal(c, if seed.Err? then Some(SeedUnavailable(seed.error)) else None)
    case InitAccount(c) =>
      var foreign := c.custodyRef in t.custodies && t.custodies[c.custodyRef].accountRef != c.accountRef;
      Demand(c.accountRef != "", AccountRefRequired,
      Demand(!foreign, CustodyBelongsTo(c.custodyRef, if foreign then t.custodies[c.custodyRef].accountRef else ""),
             None))
  }

  /** An Init is refused and changes nothing, or registers what its configuration says and nothing else. */
  lemma InitMeaning(t: Tables, i: Init)
    requires Consistent(t)
    ensures InitError(t, i) == Refusal(t, i)
    ensures var after := Apply(t, i);
      if Refusal(t, i).Some? then after == t
      else match i
        case InitAccount(c) =>
          && after.custodies == t.custodies && after.accounts.Keys == t.accounts.Keys + {c.accountRef}
          && (forall a | a in t.accounts && a != c.accountRef :: after.accounts[a] == t.accounts[a])
          && after.accounts[c.accountRef] == Account(
               ref := c.accountRef, deviceRef := c.deviceRef, custodyRef := c.custodyRef,
               credentialRef := c.credentialRef, consentRef := c.consentRef, auditRef := c.auditRef,
               custody := if c.custodyRef in t.custodies then Some(t.custodies[c.custodyRef]) else None)
        case _ =>
          && after.accounts == t.accounts && after.custodies == t.custodies[Configured(i).ref := Configured(i)]
  {}

  /**
  From configuration to use: a custody module and then its account, and a request
  that names only the account gets everything both were configured with, attested
  if the custody has a key.
  */
  lemma ConfiguredResolves(t: Tables, custody: Init, account: Init, x: Extras)
    requires Consistent(t) && account.InitAccount? && !custody.InitAccount?
    requires Refusal(t, custody).None? && account.account.accountRef == Configured(custody).accountRef
    requires account.account.custodyRef == Configured(custody).ref
    ensures var c, u := account.account, Apply(Apply(t, custody), account);
      var fields := Request(c.accountRef, c.deviceRef, c.custodyRef, "", c.consentRef, c.auditRef, c.credentialRef,
                            Configured(custody).keyRef);
      && Prepare(u, Bare(c.accountRef, "")) == Ok(Prepared(
           fields, if Configured(custody).keyRef != "" then Some(c.custodyRef) else None, []))
      && TestContextOf(u, Bare(c.accountRef, ""), x)
           == Ok(TestContext(fields, Some(Configured(custody)), ClientOptions(x)))
  {
    var c, made := account.account, Apply(t, custody);
    InitMeaning(t, custody);
    InitKeepsConsistency(t, custody);
    assert made.custodies[c.custodyRef] == Configured(custody);
    InitMeaning(made, account);
    InitKeepsConsistency(made, account);
    var u, q := Apply(made, account), Bare(c.accountRef, "");
    assert u.custodies[c.custodyRef] == Configured(custody) && u.accounts[c.accountRef].custodyRef == c.custodyRef;
    assert Prepare(u, q).Ok? && Prepare(u, q).value.warnings == [];
  }

  // ---------- snapshots never leak ----------

  function Forget(a: Account): Account {
    a.(custody := None)
  }

  /** The same registrations, apart from when each account looked at its custody. */
  ghost predicate SameButSnapshots(t: Tables, u: Tables) {
    && t.custodies == u.custodies && t.accounts.Keys == u.accounts.Keys
    && forall a | a in t.accounts :: Forget(t.accounts[a]) == Forget(u.accounts[a])
  }

  /** A custody registered again after the account: resolution uses the new one, whatever the account has captured. */
  lemma SnapshotsAreInvisible(t: Tables, u: Tables, q: Request, x: Extras)
    requires Consistent(t) && Consistent(u) && SameButSnapshots(t, u)
    ensures Prepare(t, q) == Prepare(u, q) && TestContextOf(t, q, x) == TestContextOf(u, q, x)
  {
    if q.accountRef in t.accounts {
      assert Forget(t.accounts[q.accountRef]) == Forget(u.accounts[q.accountRef]);
    }
  }

  // ---------- when the order of initialisation shows ----------

  predicate Accepts(t: Tables, i: Init) {
    InitError(t, i).None?
  }

  predicate SameAnswers(t: Tables, u: Tables, q: Request, x: Extras) {
    Prepare(t, q) == Prepare(u, q) && TestContextOf(t, q, x) == TestContextOf(u, q, x)
  }

  /** No request tells the two tables apart. */
  ghost predicate Alike(t: Tables, u: Tables) {
    forall q, x :: SameAnswers(t, u, q, x)
  }

  function AccountOf(t: Tables, c: AccountConfig): Account {
    Account(c.accountRef, c.deviceRef, c.custodyRef, c.credentialRef, c.consentRef, c.auditRef,
            Snapshot(t, c.custodyRef))
  }

  predicate OwnsCustody(t: Tables, accountRef: string) {
    exists r | r in t.custodies :: t.custodies[r].accountRef == accountRef
  }

  /**
  The account registered earlier under the same ref answers every request as the
  new one would: it says the same, or it names the same custody and the account
  owns none at all, so that every request fails alike.
  */
  predicate StandsIn(t: Tables, c: AccountConfig) {
    && c.accountRef in t.accounts
    && var earlier := t.accounts[c.accountRef];
       || Forget(earlier) == Forget(AccountOf(t, c))
       || (earlier.custodyRef == c.custodyRef != "" && !OwnsCustody(t, c.accountRef))
  }

  /** `u` is `t` with the account registered; when its custody was looked up does not matter. */
  ghost predicate WithAccount(t: Tables, u: Tables, c: AccountConfig) {
    && Consistent(t) && Consistent(u) && c.accountRef != ""
    && u.custodies == t.custodies && u.accounts.Keys == t.accounts.Keys + {c.accountRef}
    && (forall a | a in t.accounts && a != c.accountRef :: u.accounts[a] == t.accounts[a])
    && Forget(u.accounts[c.accountRef]) == Forget(AccountOf(t, c))
  }

  /** Registering the account makes no difference exactly when the one it replaces stands in for it. */
  lemma AccountShowsIff(t: Tables, u: Tables, c: AccountConfig)
    requires WithAccount(t, u, c)
    ensures Alike(t, u) <==> StandsIn(t, c)
  {
    if StandsIn(t, c) {
      forall q, x
        ensures SameAnswers(t, u, q, x)
      {
        StandInAnswersAlike(t, u, c, q, x);
      }
    } else {
      var q := TellingRequest(t, u, c);
      assert !SameAnswers(t, u, q, Extras(false, false, "", ""));
    }
  }

  lemma StandInAnswersAlike(t: Tables, u: Tables, c: AccountConfig, q: Request, x: Extras)
    requires WithAccount(t, u, c) && StandsIn(t, c)
    ensures SameAnswers(t, u, q, x)
  {
    if Forget(t.accounts[c.accountRef]) == Forget(AccountOf(t, c)) {
      SnapshotsAreInvisible(t, u, q, x);
    } else if q.accountRef == c.accountRef {
      AllFailAlike(t, u, c, q, x);
    }
  }

  /** With nothing the account owns, and a custody always named, both resolvers fail with the chosen custody's error. */
  lemma AllFailAlike(t: Tables, u: Tables, c: AccountConfig, q: Request, x: Extras)
    requires WithAccount(t, u, c) && q.accountRef == c.accountRef && c.accountRef in t.accounts
    requires t.accounts[c.accountRef].custodyRef == c.custodyRef != "" && !OwnsCustody(t, c.accountRef)
    ensures SameAnswers(t, u, q, x)
  {
    FailsFor(t, c.accountRef, c.custodyRef, q, x);
    FailsFor(u, c.accountRef, c.custodyRef, q, x);
  }

  lemma FailsFor(t: Tables, accountRef: string, custodyRef: string, q: Request, x: Extras)
    requires Consistent(t) && accountRef in t.accounts && q.accountRef == accountRef
    requires t.accounts[accountRef].custodyRef == custodyRef != "" && !OwnsCustody(t, accountRef)
    ensures var chosen := FirstNonEmpty(q.custodyRef, custodyRef);
      var error := if chosen !in t.custodies then CustodyNotRegistered(chosen)
                   else CustodyBelongsTo(t.custodies[chosen].ref, t.custodies[chosen].accountRef);
      Prepare(t, q) == Err(error) && TestContextOf(t, q, x) == Err(error)
  {}

  /** The account's request with nothing else given, or with this custody. */
  function Bare(accountRef: string, custodyRef: string): Request {
    Request(accountRef, "", custodyRef, "", "", "", "", "")
  }

  /** A request that an account not standing in answers otherwise. */
  lemma TellingRequest(t: Tables, u: Tables, c: AccountConfig) returns (q: Request)
    requires WithAccount(t, u, c) && !StandsIn(t, c)
    ensures Prepare(t, q) != Prepare(u, q)
  {
    q := Bare(c.accountRef, "");
    if c.accountRef !in t.accounts {
      NewcomerTells(t, u, c);
    } else if t.accounts[c.accountRef].custodyRef == c.custodyRef != "" {
      var r :| r in t.custodies && t.custodies[r].accountRef == c.accountRef;
      q := Bare(c.accountRef, r);
      FieldsTell(t, u, c, r);
    } else if t.accounts[c.accountRef].custodyRef == c.custodyRef {
      FieldsTell(t, u, c, "");
    } else {
      CustodyTells(t, u, c);
    }
  }

  /** An account nobody registered draws a warning, or does not fail. */
  lemma NewcomerTells(t: Tables, u: Tables, c: AccountConfig)
    requires WithAccount(t, u, c) && c.accountRef !in t.accounts
    ensures Prepare(t, Bare(c.accountRef, "")) != Prepare(u, Bare(c.accountRef, ""))
  {
    var q := Bare(c.accountRef, "");
    assert AccountRefNotRegistered in Prepare(t, q).value.warnings;
    assert Prepare(u, q).Ok? ==> AccountRefNotRegistered !in Prepare(u, q).value.warnings;
  }

  /** Where both resolve, a field that differs shows. */
  lemma FieldsTell(t: Tables, u: Tables, c: AccountConfig, custodyRef: string)
    requires WithAccount(t, u, c) && c.accountRef in t.accounts
    requires t.accounts[c.accountRef].custodyRef == c.custodyRef
    requires Forget(t.accounts[c.accountRef]) != Forget(AccountOf(t, c))
    requires if custodyRef == "" then c.custodyRef == ""
             else custodyRef in t.custodies && t.custodies[custodyRef].accountRef == c.accountRef
    ensures Prepare(t, Bare(c.accountRef, custodyRef)) != Prepare(u, Bare(c.accountRef, custodyRef))
  {
    var q := Bare(c.accountRef, custodyRef);
    assert Prepare(t, q).Ok? && Prepare(u, q).Ok?;
    var f, g := Prepare(t, q).value.fields, Prepare(u, q).value.fields;
    var earlier := t.accounts[c.accountRef];
    assert f.deviceRef == earlier.deviceRef && f.consentRef == earlier.consentRef;
    assert f.auditRef == earlier.auditRef && f.credentialRef == earlier.credentialRef;
    assert g.deviceRef == c.deviceRef && g.consentRef == c.consentRef;
    assert g.auditRef == c.auditRef && g.credentialRef == c.credentialRef;
  }

  /** Accounts that name different custodies resolve to them, or fail over them. */
  lemma CustodyTells(t: Tables, u: Tables, c: AccountConfig)
    requires WithAccount(t, u, c) && c.accountRef in t.accounts
    requires t.accounts[c.accountRef].custodyRef != c.custodyRef
    ensures Prepare(t, Bare(c.accountRef, "")) != Prepare(u, Bare(c.accountRef, ""))
  {
    ResolvesTo(t, c.accountRef);
    ResolvesTo(u, c.accountRef);
  }

  lemma ResolvesTo(t: Tables, accountRef: string)
    requires Consistent(t) && accountRef in t.accounts
    ensures var chosen := t.accounts[accountRef].custodyRef;
      match Prepare(t, Bare(accountRef, ""))
      case Ok(p) => p.fields.custodyRef == chosen
      case Err(CustodyNotRegistered(ref)) => ref == chosen
      case Err(CustodyBelongsTo(ref, _)) => ref == chosen && chosen in t.custodies
      case _ => false
  {}

  lemma AlikeIsSymmetric(t: Tables, u: Tables)
    requires Alike(t, u)
    ensures Alike(u, t)
  {
    forall q, x
      ensures SameAnswers(u, t, q, x)
    {
      assert SameAnswers(t, u, q, x);
    }
  }

  lemma BothOrdersConsistent(t: Tables, custody: Init, account: Init)
    requires Consistent(t)
    ensures Consistent(Apply(Apply(t, custody), account)) && Consistent(Apply(Apply(t, account), custody))
  {
    InitKeepsConsistency(t, custody);
    InitKeepsConsistency(Apply(t, custody), account);
    InitKeepsConsistency(t, account);
    InitKeepsConsistency(Apply(t, account), custody);
  }

  /** An account accepted in both orders, or in neither, leaves tables that differ in snapshots only. */
  lemma AcceptedAlike(t: Tables, custody: Init, account: Init)
    requires Consistent(t) && account.InitAccount? && !custody.InitAccount?
    requires Accepts(t, account) <==> Accepts(Apply(t, custody), account)
    ensures SameButSnapshots(Apply(Apply(t, custody), account), Apply(Apply(t, account), custody))
  {}

  /** An account accepted in one order only: the two tables are one without it and one with it. */
  lemma AcceptedOnce(t: Tables, custody: Init, account: Init)
    requires Consistent(t) && account.InitAccount? && !custody.InitAccount?
    requires !(Accepts(t, account) <==> Accepts(Apply(t, custody), account))
    ensures var one, two := Apply(Apply(t, custody), account), Apply(Apply(t, account), custody);
      if Accepts(t, account) then one == Apply(t, custody) && WithAccount(one, two, account.account)
      else two == Apply(t, custody) && WithAccount(two, one, account.account)
  {
    BothOrdersConsistent(t, custody, account);
  }

  /**
  When the order of two Inits shows, from any consistent state: a custody and
  then an account answer every request like the account and then the custody, if
  and only if the account is accepted in both orders or in neither, or an earlier
  registration stands in for it.
  */
  lemma InitOrderShowsIff(t: Tables, custody: Init, account: Init)
    requires Consistent(t) && account.InitAccount? && !custody.InitAccount?
    ensures Alike(Apply(Apply(t, custody), account), Apply(Apply(t, account), custody))
       <==> ((Accepts(t, account) <==> Accepts(Apply(t, custody), account))
             || StandsIn(Apply(t, custody), account.account))
  {
    var one, two := Apply(Apply(t, custody), account), Apply(Apply(t, account), custody);
    if Accepts(t, account) <==> Accepts(Apply(t, custody), account) {
      AcceptedAlike(t, custody, account);
      BothOrdersConsistent(t, custody, account);
      forall q, x
        ensures SameAnswers(one, two, q, x)
      {
        SnapshotsAreInvisible(one, two, q, x);
      }
    } else {
      AcceptedOnce(t, custody, account);
      if Accepts(t, account) {
        AccountShowsIff(one, two, account.account);
      } else {
        AccountShowsIff(two, one, account.account);
        if Alike(one, two) {
          AlikeIsSymmetric(one, two);
        } else if Alike(two, one) {
          AlikeIsSymmetric(two, one);
        }
      }
    }
  }

  /**
  For an account not registered yet and two Inits each accepted when it comes
  first: the order shows exactly when the custody sits under the account's
  custody ref and names another owner. Then the account is refused after the
  custody, and accepted before it.
  */
  lemma NewAccountOrderShowsIff(t: Tables, custody: Init, account: Init)
    requires Consistent(t) && account.InitAccount? && !custody.InitAccount?
    requires Accepts(t, custody) && Accepts(t, account) && account.account.accountRef !in t.accounts
    ensures Alike(Apply(Apply(t, custody), account), Apply(Apply(t, account), custody))
       <==> !(Configured(custody).ref == account.account.custodyRef
              && Configured(custody).accountRef != account.account.accountRef)
  {
    InitOrderShowsIff(t, custody, account);
  }
}
