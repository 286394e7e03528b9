/**
What holds over whole runs of a sealed custody directory: calls that succeed or
fail at any step, crashes between any two steps of a write, and stores opened
again with any configuration.
*/
module SealedRuns {
  import opened Common
  import opened Refs
  import opened Sealing
  import opened SealedModel

  datatype Event =
    | Returns(op: Op, clock: int)           // the call runs to its end
    | Crashes(op: Op, clock: int, at: nat)  // the process dies after that many file-system steps
    | Reopens(cfg: Config)                  // a new store on the same directory

  function Next(h: Host, v: Vault, e: Event): Vault {
    match e
    case Returns(op, clock) => Call(h, v, op, clock).0
    case Crashes(op, clock, at) =>
      (match PlanOf(h, v, op, clock)
       case Perform(w) =>
         var trace := WriteTrace(h, v.files, w);
         Vault(v.cfg, trace[if at < |trace| then at else |trace| - 1])
       case _ => v)
    case Reopens(cfg) => if OpenError(cfg).Some? then v else Vault(Normalized(cfg), v.files)
  }

  function Run(h: Host, v: Vault, es: seq<Event>): Vault
    decreases |es|
  {
    if es == [] then v else Run(h, Next(h, v, es[0]), es[1..])
  }

  /** The write this event makes durable, if any: the rename has happened. */
  function Committed(h: Host, v: Vault, e: Event): Option<Write> {
    if e.Reopens? then None
    else match PlanOf(h, v, e.op, e.clock)
      case Perform(w) =>
        if WriteError(h, v.files, w).None? && (e.Crashes? ==> e.at >= 3) then Some(w) else None
      case _ => None
  }

  /** The refs in use: names do not collide on them, and every event stays within them. */
  ghost predicate InUse(h: Host, refs: set<string>) {
    HexNames(h) && InjectiveOn(h, refs)
  }

  predicate Within(refs: set<string>, e: Event) {
    e.Reopens? || e.op.ref in refs
  }

  function StoredAt(h: Host, files: Files, ref: string): Option<Content> {
    var name := BundleName(h, ref);
    if name in files then Some(files[name]) else None
  }

  // ---------- one write, step by step ----------

  /**
  Crash atomicity of one write: at every step, each bundle path holds what it
  held before, or, for the written ref and only at the very end of a write that
  reports no error, the complete new bundle. The deferred remove disturbs none.
  */
  lemma WriteIsAtomic(h: Host, refs: set<string>, files: Files, w: Write, at: nat, ref: string)
    requires InUse(h, refs) && w.meta.refId in refs && ref in refs
    requires at < |WriteTrace(h, files, w)|
    ensures var state := WriteTrace(h, files, w)[at];
      if ref == w.meta.refId && WriteError(h, files, w).None? && at == 3 then
        h.resolve(w.cfg.kekRef).Some? &&
        StoredAt(h, state, ref) == Some(Document(Seal(h.resolve(w.cfg.kekRef).value, w.meta, w.material, w.io.nonce)))
      else StoredAt(h, state, ref) == StoredAt(h, files, ref)
    ensures WriteError(h, files, w).None? <==> |WriteTrace(h, files, w)| == 4 && w.io.fault == NoFault
  {
    TempIsNoBundle(h, w.meta.refId, w.io.suffix, ref);
    if ref != w.meta.refId {
      BundleNamesDiffer(h, refs, ref, w.meta.refId);
    }
  }

  /** Readers look at bundle paths only: in the middle of a write they see the old state or the new one. */
  lemma ReadersSeeOldOrNew(h: Host, refs: set<string>, cfg: Config, files: Files, w: Write, at: nat, ref: string)
    requires InUse(h, refs) && w.meta.refId in refs && ref in refs
    requires at < |WriteTrace(h, files, w)|
    ensures var trace := WriteTrace(h, files, w);
      || ReadBundle(h, cfg, trace[at], ref) == ReadBundle(h, cfg, files, ref)
      || (WriteError(h, files, w).None? && ReadBundle(h, cfg, trace[at], ref) == ReadBundle(h, cfg, Last(trace), ref))
  {
    WriteIsAtomic(h, refs, files, w, at, ref);
  }

  /** An operation that returns an error leaves every bundle and the store's KEK as they were. */
  lemma ErrorsChangeNothing(h: Host, refs: set<string>, v: Vault, op: Op, clock: int, ref: string)
    requires InUse(h, refs) && op.ref in refs && ref in refs && WellStored(h, refs, v.files)
    requires Call(h, v, op, clock).1.Err?
    ensures Call(h, v, op, clock).0.cfg == v.cfg
    ensures StoredAt(h, Call(h, v, op, clock).0.files, ref) == StoredAt(h, v.files, ref)
  {
    var plan := PlanOf(h, v, op, clock);
    if plan.Perform? {
      PlannedRef(h, refs, v, op, clock);
      var w := plan.write;
      WriteIsAtomic(h, refs, v.files, w, |WriteTrace(h, v.files, w)| - 1, ref);
    }
  }

  /** Bundles sit under their own names. */
  ghost predicate WellStored(h: Host, refs: set<string>, files: Files) {
    forall ref | ref in refs ::
      match StoredAt(h, files, ref)
      case Some(Document(b)) => b.meta.refId == ref
      case _ => true
  }

  lemma PlannedRef(h: Host, refs: set<string>, v: Vault, op: Op, clock: int)
    requires op.ref in refs && WellStored(h, refs, v.files)
    requires PlanOf(h, v, op, clock).Perform?
    ensures PlanOf(h, v, op, clock).write.meta.refId == op.ref
  {}

  /** The one effect any event has on bundle paths. */
  lemma EventEffect(h: Host, refs: set<string>, v: Vault, e: Event, ref: string)
    requires InUse(h, refs) && Within(refs, e) && ref in refs && WellStored(h, refs, v.files)
    ensures var after := StoredAt(h, Next(h, v, e).files, ref);
      match Committed(h, v, e)
      case Some(w) =>
        && w.meta.refId == e.op.ref && h.resolve(w.cfg.kekRef).Some?
        && after == if ref == e.op.ref
                    then Some(Document(Seal(h.resolve(w.cfg.kekRef).value, w.meta, w.material, w.io.nonce)))
                    else StoredAt(h, v.files, ref)
      case None => after == StoredAt(h, v.files, ref)
  {
    if !e.Reopens? && PlanOf(h, v, e.op, e.clock).Perform? {
      PlannedRef(h, refs, v, e.op, e.clock);
      var w := PlanOf(h, v, e.op, e.clock).write;
      var trace := WriteTrace(h, v.files, w);
      var at := if e.Crashes? && e.at < |trace| then e.at else |trace| - 1;
      WriteIsAtomic(h, refs, v.files, w, at, ref);
    }
  }

  // ---------- the ledger: what the run has made durable ----------

  datatype Rotation = Rotation(expected: string, target: string)

  /** Since the last Create of a ref: its material, its first version, its rotations. */
  datatype Entry = Entry(material: Material, created: string, rotations: seq<Rotation>) {
    /** The version after the first `i` rotations. */
    function VersionAt(i: nat): string
      requires i <= |rotations|
    {
      if i == 0 then created else rotations[i - 1].target
    }

    function Version(): string {
      VersionAt(|rotations|)
    }

    /** Each rotation expected exactly the version before it. */
    predicate Contiguous() {
      forall i: nat | i < |rotations| :: rotations[i].expected == VersionAt(i)
    }

    function Then(expected: string, target: string): Entry {
      this.(rotations := rotations + [Rotation(expected, target)])
    }

    lemma Extends(expected: string, target: string)
      requires Contiguous() && expected == Version()
      ensures Then(expected, target).Contiguous() && Then(expected, target).Version() == target
    {
      var longer := Then(expected, target);
      forall i: nat | i < |longer.rotations|
        ensures longer.rotations[i].expected == longer.VersionAt(i)
      {
        assert longer.VersionAt(i) == VersionAt(i);
        assert i < |rotations| ==> longer.rotations[i] == rotations[i];
      }
    }
  }

  type Ledger = map<string, Entry>

  function Record(h: Host, v: Vault, l: Ledger, e: Event): Ledger {
    if Committed(h, v, e).None? then l
    else match e.op
      case Create(ref, _, _, material, _, _) => l[ref := Entry(material, v.cfg.kekVersion, [])]
      case Rotate(ref, expected, _, target, _, _, _) =>
        if ref !in l then l
        else l[ref := l[ref].Then(expected, target)]
      case _ => l
  }

  function RecordAll(h: Host, v: Vault, l: Ledger, es: seq<Event>): Ledger
    decreases |es|
  {
    if es == [] then l else RecordAll(h, Next(h, v, es[0]), Record(h, v, l, es[0]), es[1..])
  }

  /** The bundle opens under the secret of its own KEK to the ledger's material and carries the ledger's version. */
  ghost predicate Intact(h: Host, ref: string, b: Bundle, entry: Entry) {
    && b.meta.refId == ref
    && h.resolve(b.meta.kekRef).Some?
    && Open(h.resolve(b.meta.kekRef).value, b.nonce, Aad(b.meta), b.ciphertext) == Some(entry.material)
    && b.meta.kekVersion == entry.Version()
    && entry.Contiguous()
  }

  ghost predicate Sound(h: Host, refs: set<string>, files: Files, l: Ledger) {
    forall ref | ref in refs ::
      match StoredAt(h, files, ref)
      case None => ref !in l
      case Some(Garbage) => false
      case Some(Document(b)) => ref in l && Intact(h, ref, b, l[ref])
  }

  lemma EventStaysSound(h: Host, refs: set<string>, v: Vault, l: Ledger, e: Event)
    requires InUse(h, refs) && Within(refs, e) && Sound(h, refs, v.files, l)
    ensures Sound(h, refs, Next(h, v, e).files, Record(h, v, l, e))
  {
    forall ref | ref in refs
      ensures match StoredAt(h, Next(h, v, e).files, ref)
        case None => ref !in Record(h, v, l, e)
        case Some(Garbage) => false
        case Some(Document(b)) => ref in Record(h, v, l, e) && Intact(h, ref, b, Record(h, v, l, e)[ref])
    {
      EventEffect(h, refs, v, e, ref);
      if Committed(h, v, e).Some? && ref == e.op.ref {
        CommitIsIntact(h, refs, v, l, e);
      }
    }
  }

  lemma CommitIsIntact(h: Host, refs: set<string>, v: Vault, l: Ledger, e: Event)
    requires InUse(h, refs) && Within(refs, e) && Sound(h, refs, v.files, l)
    requires Committed(h, v, e).Some?
    ensures var w, ref := Committed(h, v, e).value, e.op.ref;
      && h.resolve(w.cfg.kekRef).Some? && ref in Record(h, v, l, e)
      && Intact(h, ref, Seal(h.resolve(w.cfg.kekRef).value, w.meta, w.material, w.io.nonce), Record(h, v, l, e)[ref])
  {
    var ref := e.op.ref;
    EventEffect(h, refs, v, e, ref);
    if !e.op.Create? {
      assert StoredAt(h, v.files, ref).Some?;
    }
    if e.op.Rotate? {
      l[ref].Extends(e.op.expected, e.op.newVersion);
    }
  }

  /**
  The seal invariant and the rotation chain, over every run from a directory
  without bundles: each stored bundle opens to the material of the last
  committed Create of its ref, and since then its rotations form one chain
  that ends at the version on disk.
  */
  lemma {:induction false} RunStaysSound(h: Host, refs: set<string>, v: Vault, l: Ledger, es: seq<Event>)
    requires InUse(h, refs) && (forall e | e in es :: Within(refs, e)) && Sound(h, refs, v.files, l)
    ensures Sound(h, refs, Run(h, v, es).files, RecordAll(h, v, l, es))
    decreases |es|
  {
    if es != [] {
      EventStaysSound(h, refs, v, l, es[0]);
      RunStaysSound(h, refs, Next(h, v, es[0]), Record(h, v, l, es[0]), es[1..]);
    }
  }

  lemma EmptyDirectoryIsSound(h: Host, refs: set<string>, files: Files)
    requires forall ref | ref in refs :: StoredAt(h, files, ref).None?
    ensures Sound(h, refs, files, map[])
  {}

  /** The seal invariant, spelled out for one ref. */
  lemma SealInvariant(h: Host, refs: set<string>, v: Vault, es: seq<Event>, ref: string, b: Bundle)
    requires InUse(h, refs) && (forall e | e in es :: Within(refs, e)) && ref in refs
    requires forall r | r in refs :: StoredAt(h, v.files, r).None?
    requires StoredAt(h, Run(h, v, es).files, ref) == Some(Document(b))
    ensures var l := RecordAll(h, v, map[], es);
      && ref in l && b.meta.refId == ref && h.resolve(b.meta.kekRef).Some?
      && Open(h.resolve(b.meta.kekRef).value, b.nonce, Aad(b.meta), b.ciphertext) == Some(l[ref].material)
  {
    EmptyDirectoryIsSound(h, refs, v.files);
    RunStaysSound(h, refs, v, map[], es);
  }

  /** The rotation chain, spelled out for one rotation: it expects the created version or the target before it. */
  lemma RotationsLink(h: Host, refs: set<string>, v: Vault, es: seq<Event>, ref: string, i: nat)
    requires InUse(h, refs) && (forall e | e in es :: Within(refs, e)) && ref in refs
    requires forall r | r in refs :: StoredAt(h, v.files, r).None?
    requires ref in RecordAll(h, v, map[], es) && i < |RecordAll(h, v, map[], es)[ref].rotations|
    ensures var entry := RecordAll(h, v, map[], es)[ref];
      entry.rotations[i].expected == if i == 0 then entry.created else entry.rotations[i - 1].target
  {
    EmptyDirectoryIsSound(h, refs, v.files);
    RunStaysSound(h, refs, v, map[], es);
    LedgerIsContiguous(h, refs, Run(h, v, es).files, RecordAll(h, v, map[], es), ref);
  }

  lemma LedgerIsContiguous(h: Host, refs: set<string>, files: Files, l: Ledger, ref: string)
    requires Sound(h, refs, files, l) && ref in refs && ref in l
    ensures l[ref].Contiguous()
    ensures match StoredAt(h, files, ref)
      case Some(Document(b)) => b.meta.kekVersion == l[ref].Version()
      case _ => false
  {}

  /** The chain ends at the version of the bundle on disk. */
  lemma DiskHoldsLastVersion(h: Host, refs: set<string>, v: Vault, es: seq<Event>, ref: string)
    requires InUse(h, refs) && (forall e | e in es :: Within(refs, e)) && ref in refs
    requires forall r | r in refs :: StoredAt(h, v.files, r).None?
    requires ref in RecordAll(h, v, map[], es)
    ensures var entry := RecordAll(h, v, map[], es)[ref];
      match StoredAt(h, Run(h, v, es).files, ref)
      case Some(Document(b)) => b.meta.kekVersion ==
        if entry.rotations == [] then entry.created else entry.rotations[|entry.rotations| - 1].target
      case _ => false
  {
    EmptyDirectoryIsSound(h, refs, v.files);
    RunStaysSound(h, refs, v, map[], es);
    LedgerIsContiguous(h, refs, Run(h, v, es).files, RecordAll(h, v, map[], es), ref);
  }

  // ---------- who is readable ----------

  ghost predicate PairMatches(cfg: Config, b: Bundle) {
    b.meta.kekRef == cfg.kekRef && b.meta.kekVersion == cfg.kekVersion
  }

  /** In every reachable state a ref reads back exactly when its stored KEK pair is the store's,
      and then to its material. */
  lemma ReadableIffPairMatches(h: Host, refs: set<string>, cfg: Config, files: Files, l: Ledger, ref: string)
    requires Sound(h, refs, files, l) && ref in refs
    ensures match StoredAt(h, files, ref)
      case Some(Document(b)) =>
        if PairMatches(cfg, b) then ReadBundle(h, cfg, files, ref) == Ok(Opened(b, l[ref].material))
        else ReadBundle(h, cfg, files, ref) == Err(StaleKek)
      case _ => ReadBundle(h, cfg, files, ref) == Err(NoSuchFile)
  {}

  lemma RotateMovesPair(h: Host, v: Vault, op: Op, clock: int)
    requires op.Rotate? && Call(h, v, op, clock).1.Ok?
    ensures var v' := Call(h, v, op, clock).0;
      && v'.cfg.kekVersion == op.newVersion
      && v'.cfg.kekRef == (if op.newKekRef == "" then v.cfg.kekRef else op.newKekRef)
      && match Committed(h, v, Returns(op, clock))
         case Some(w) => w.meta.kekRef == v'.cfg.kekRef && w.meta.kekVersion == v'.cfg.kekVersion
         case None => false
  {}

  /** The rotated ref itself can be read. */
  lemma RotatedIsReadable(h: Host, refs: set<string>, v: Vault, l: Ledger, op: Op, clock: int)
    requires InUse(h, refs) && op.ref in refs && Sound(h, refs, v.files, l)
    requires op.Rotate? && Call(h, v, op, clock).1.Ok?
    ensures var v' := Call(h, v, op, clock).0; ReadBundle(h, v'.cfg, v'.files, op.ref).Ok?
  {
    var e := Returns(op, clock);
    RotateMovesPair(h, v, op, clock);
    EventEffect(h, refs, v, e, op.ref);
    EventStaysSound(h, refs, v, l, e);
    ReadableIffPairMatches(h, refs, Next(h, v, e).cfg, Next(h, v, e).files, Record(h, v, l, e), op.ref);
  }

  /** Another ref can be read exactly when it was already stored under the new pair. */
  lemma OthersReadableIffUnderNewPair(h: Host, refs: set<string>, v: Vault, l: Ledger, op: Op, clock: int, ref: string)
    requires InUse(h, refs) && op.ref in refs && ref in refs && ref != op.ref && Sound(h, refs, v.files, l)
    requires op.Rotate? && Call(h, v, op, clock).1.Ok?
    ensures var v' := Call(h, v, op, clock).0;
      ReadBundle(h, v'.cfg, v'.files, ref).Ok? <==>
        match StoredAt(h, v.files, ref)
        case Some(Document(b)) => PairMatches(v'.cfg, b)
        case _ => false
  {
    var e := Returns(op, clock);
    EventEffect(h, refs, v, e, ref);
    ReadableIffPairMatches(h, refs, Next(h, v, e).cfg, v.files, l, ref);
  }

  /** After a successful rotation the readable refs are the rotated one and those already stored under the new pair. */
  lemma RotateReadableSet(h: Host, refs: set<string>, v: Vault, l: Ledger, op: Op, clock: int, ref: string)
    requires InUse(h, refs) && op.ref in refs && ref in refs && Sound(h, refs, v.files, l)
    requires op.Rotate? && Call(h, v, op, clock).1.Ok?
    ensures var v' := Call(h, v, op, clock).0;
      && v'.cfg.kekVersion == op.newVersion
      && v'.cfg.kekRef == (if op.newKekRef == "" then v.cfg.kekRef else op.newKekRef)
      && (ReadBundle(h, v'.cfg, v'.files, ref).Ok? <==>
            ref == op.ref ||
            match StoredAt(h, v.files, ref)
            case Some(Document(b)) => PairMatches(v'.cfg, b)
            case _ => false)
  {
    RotateMovesPair(h, v, op, clock);
    if ref == op.ref {
      RotatedIsReadable(h, refs, v, l, op, clock);
    } else {
      OthersReadableIffUnderNewPair(h, refs, v, l, op, clock, ref);
    }
  }

  /** Rotation keeps who the bundle is and what it holds; only the KEK and the rotation time move. */
  lemma RotateKeepsIdentity(h: Host, refs: set<string>, v: Vault, l: Ledger, op: Op, clock: int)
    requires InUse(h, refs) && op.ref in refs && Sound(h, refs, v.files, l)
    requires op.Rotate? && Call(h, v, op, clock).1.Ok?
    ensures var before, after := ReadBundle(h, v.cfg, v.files, op.ref),
                                 ReadBundle(h, Call(h, v, op, clock).0.cfg, Call(h, v, op, clock).0.files, op.ref);
      && before.Ok? && after.Ok?
      && before.value.bundle.meta.kekVersion == op.expected
      && after.value.material == before.value.material == l[op.ref].material
      && var m, m' := before.value.bundle.meta, after.value.bundle.meta;
         m' == m.(kekRef := if op.newKekRef == "" then v.cfg.kekRef else op.newKekRef, kekVersion := op.newVersion,
                  rotatedAt := if op.now == ZERO_TIME then clock else op.now)
  {
    var e := Returns(op, clock);
    EventEffect(h, refs, v, e, op.ref);
    EventStaysSound(h, refs, v, l, e);
    var v' := Next(h, v, e);
    ReadableIffPairMatches(h, refs, v.cfg, v.files, l, op.ref);
    ReadableIffPairMatches(h, refs, v'.cfg, v'.files, Record(h, v, l, e), op.ref);
  }

  /** What Create seals, Restore brings back, unless the ref is revoked meanwhile. */
  lemma CreateThenRestore(h: Host, refs: set<string>, v: Vault, l: Ledger, op: Op, clock: int)
    requires InUse(h, refs) && op.ref in refs && Sound(h, refs, v.files, l)
    requires op.Create? && Call(h, v, op, clock).1.Ok?
    ensures var (v', created) := Call(h, v, op, clock);
      && Call(h, v', Restore(op.ref, true), clock) == (v', created)
      && ReadBundle(h, v'.cfg, v'.files, op.ref).Ok?
      && ReadBundle(h, v'.cfg, v'.files, op.ref).value.material == op.material
      && v'.cfg == v.cfg
      && created.value.state == Active && created.value.refId == op.ref && created.value.backendId == v.cfg.backendId
      && created.value.kekRef == v.cfg.kekRef && created.value.kekVersion == v.cfg.kekVersion
      && created.value.accountRef == op.accountRef && created.value.deviceRef == op.deviceRef
      && created.value.createdAt == created.value.rotatedAt
      && created.value.createdAt == (if op.now == ZERO_TIME then clock else op.now)
  {
    var e := Returns(op, clock);
    EventEffect(h, refs, v, e, op.ref);
    EventStaysSound(h, refs, v, l, e);
  }

  // ---------- stale bundles ----------

  predicate Creates(e: Event, ref: string) {
    !e.Reopens? && e.op.Create? && e.op.ref == ref
  }

  /** The event makes a Create of the ref durable. */
  predicate Recreates(h: Host, v: Vault, e: Event, ref: string) {
    Creates(e, ref) && Committed(h, v, e).Some?
  }

  /** No event of the run commits a Create of the ref. */
  ghost predicate NeverRecreated(h: Host, v: Vault, es: seq<Event>, ref: string)
    decreases |es|
  {
    es == [] || (!Recreates(h, v, es[0], ref) && NeverRecreated(h, Next(h, v, es[0]), es[1..], ref))
  }

  /** In every state before the last one, the store's KEK pair differs from the bundle's. */
  ghost predicate StaleThroughout(h: Host, v: Vault, es: seq<Event>, b: Bundle)
    decreases |es|
  {
    es == [] || (!PairMatches(v.cfg, b) && StaleThroughout(h, Next(h, v, es[0]), es[1..], b))
  }

  /**
  A stale bundle keeps its bytes for as long as it is stale and no Create of it
  is committed, and reads back with the same material once the store returns to
  its pair.
  */
  lemma {:induction false} StaleBundleWaits(h: Host, refs: set<string>, v: Vault, l: Ledger, es: seq<Event>,
                                            ref: string, b: Bundle)
    requires InUse(h, refs) && ref in refs && (forall e | e in es :: Within(refs, e)) && Sound(h, refs, v.files, l)
    requires NeverRecreated(h, v, es, ref)
    requires StoredAt(h, v.files, ref) == Some(Document(b)) && StaleThroughout(h, v, es, b)
    ensures var end := Run(h, v, es);
      && StoredAt(h, end.files, ref) == Some(Document(b))
      && (PairMatches(end.cfg, b) ==> ReadBundle(h, end.cfg, end.files, ref) == Ok(Opened(b, l[ref].material)))
    decreases |es|
  {
    if es != [] {
      var e := es[0];
      EventStaysSound(h, refs, v, l, e);
      EventEffect(h, refs, v, e, ref);
      ReadableIffPairMatches(h, refs, v.cfg, v.files, l, ref);
      assert !Recreates(h, v, e, ref);
      assert StoredAt(h, Next(h, v, e).files, ref) == Some(Document(b));
      StaleBundleWaits(h, refs, Next(h, v, e), Record(h, v, l, e), es[1..], ref, b);
      assert Record(h, v, l, e)[ref].material == l[ref].material;
    } else {
      ReadableIffPairMatches(h, refs, v.cfg, v.files, l, ref);
    }
  }

  // ---------- revocation ----------

  ghost predicate IsRevoked(h: Host, files: Files, ref: string) {
    match StoredAt(h, files, ref)
    case Some(Document(b)) => b.meta.state == Revoked
    case _ => false
  }

  lemma RevokedRefusesUse(h: Host, v: Vault, op: Op, clock: int)
    requires IsRevoked(h, v.files, op.ref) && (op.Restore? || op.Rotate?)
    ensures Call(h, v, op, clock).1.Err? && Call(h, v, op, clock).0 == v
  {}

  /** One event un-revokes a ref exactly when it commits a Create of it. */
  lemma RevocationEndsOnlyByCreate(h: Host, refs: set<string>, v: Vault, l: Ledger, e: Event, ref: string)
    requires InUse(h, refs) && ref in refs && Within(refs, e) && Sound(h, refs, v.files, l)
    requires IsRevoked(h, v.files, ref)
    ensures IsRevoked(h, Next(h, v, e).files, ref) <==> !Recreates(h, v, e, ref)
  {
    EventEffect(h, refs, v, e, ref);
    if Committed(h, v, e).Some? && e.op.ref == ref && e.op.Rotate? {
      RevokedRefusesUse(h, v, e.op, e.clock);
    }
  }

  ghost predicate RevokedThroughout(h: Host, v: Vault, es: seq<Event>, ref: string)
    decreases |es|
  {
    IsRevoked(h, v.files, ref) && (es == [] || RevokedThroughout(h, Next(h, v, es[0]), es[1..], ref))
  }

  /** A revoked ref stays revoked in every state of a run exactly when the run commits no Create of it. */
  lemma {:induction false} RevokedUntilRecreated(h: Host, refs: set<string>, v: Vault, l: Ledger, es: seq<Event>,
                                                 ref: string)
    requires InUse(h, refs) && ref in refs && (forall e | e in es :: Within(refs, e)) && Sound(h, refs, v.files, l)
    requires IsRevoked(h, v.files, ref)
    ensures RevokedThroughout(h, v, es, ref) <==> NeverRecreated(h, v, es, ref)
    decreases |es|
  {
    if es != [] {
      var e := es[0];
      RevocationEndsOnlyByCreate(h, refs, v, l, e, ref);
      EventStaysSound(h, refs, v, l, e);
      if !Recreates(h, v, e, ref) {
        RevokedUntilRecreated(h, refs, Next(h, v, e), Record(h, v, l, e), es[1..], ref);
      }
    }
  }

  lemma {:induction false} ThroughoutReachesEnd(h: Host, v: Vault, es: seq<Event>, ref: string)
    requires RevokedThroughout(h, v, es, ref)
    ensures IsRevoked(h, Run(h, v, es).files, ref)
    decreases |es|
  {
    if es != [] {
      ThroughoutReachesEnd(h, Next(h, v, es[0]), es[1..], ref);
    }
  }

  /**
  Revocation is final: as long as no Create of the ref is committed, whatever
  else happens, failed or crashed Creates included, its stored state stays
  revoked, and Restore and Rotate of it fail and change nothing.
  */
  lemma RevocationIsFinal(h: Host, refs: set<string>, v: Vault, l: Ledger, es: seq<Event>, ref: string, op: Op,
                          clock: int)
    requires InUse(h, refs) && ref in refs && (forall e | e in es :: Within(refs, e)) && Sound(h, refs, v.files, l)
    requires IsRevoked(h, v.files, ref) && NeverRecreated(h, v, es, ref)
    requires op.ref == ref && (op.Restore? || op.Rotate?)
    ensures IsRevoked(h, Run(h, v, es).files, ref)
    ensures Call(h, Run(h, v, es), op, clock).1.Err? && Call(h, Run(h, v, es), op, clock).0 == Run(h, v, es)
  {
    RevokedUntilRecreated(h, refs, v, l, es, ref);
    ThroughoutReachesEnd(h, v, es, ref);
    RevokedRefusesUse(h, Run(h, v, es), op, clock);
  }

  /** A successful Revoke changes the state and its time and nothing else; the bundle can still be inspected. */
  lemma RevokeThenInspect(h: Host, refs: set<string>, v: Vault, l: Ledger, op: Op, clock: int)
    requires InUse(h, refs) && op.ref in refs && Sound(h, refs, v.files, l)
    requires op.Revoke? && Call(h, v, op, clock).1.Ok?
    ensures var (v', revoked) := Call(h, v, op, clock);
      && v'.cfg == v.cfg
      && Call(h, v, Inspect(op.ref, true), clock).1.Ok?
      && revoked.value == Call(h, v, Inspect(op.ref, true), clock).1.value.(
           state := Revoked, revokedAt := if op.now == ZERO_TIME then clock else op.now)
      && Call(h, v', Inspect(op.ref, true), clock).1 == revoked
      && Call(h, v', Restore(op.ref, true), clock).1 == Err(RevokedRef)
      && IsRevoked(h, v'.files, op.ref)
  {
    var e := Returns(op, clock);
    EventEffect(h, refs, v, e, op.ref);
    EventStaysSound(h, refs, v, l, e);
    var v' := Next(h, v, e);
    ReadableIffPairMatches(h, refs, v'.cfg, v'.files, Record(h, v, l, e), op.ref);
  }

  /** A successful Revoke takes effect at once, and a Create brings the ref back: the exception is real. */
  lemma CreateUndoesRevocation(h: Host, refs: set<string>, v: Vault, l: Ledger, revoke: Op, create: Op, clock: int)
    requires InUse(h, refs) && Sound(h, refs, v.files, l)
    requires revoke.Revoke? && create.Create? && revoke.ref == create.ref && create.ref in refs
    requires Call(h, v, revoke, clock).1.Ok?
    requires Call(h, Call(h, v, revoke, clock).0, create, clock).1.Ok?
    ensures var v1 := Call(h, v, revoke, clock).0;
      var v2 := Call(h, v1, create, clock).0;
      && IsRevoked(h, v1.files, create.ref)
      && !IsRevoked(h, v2.files, create.ref)
      && Call(h, v2, Restore(create.ref, true), clock).1.Ok?
  {
    var e, f := Returns(revoke, clock), Returns(create, clock);
    var v1 := Next(h, v, e);
    EventEffect(h, refs, v, e, create.ref);
    EventStaysSound(h, refs, v, l, e);
    EventEffect(h, refs, v1, f, create.ref);
    CreateThenRestore(h, refs, v1, Record(h, v, l, e), create, clock);
  }

  // ---------- associated data ----------

  predicate SameLabels(m: Metadata, other: Metadata) {
    && m.backendId == other.backendId && m.refId == other.refId
    && m.kekRef == other.kekRef && m.kekVersion == other.kekVersion
  }

  predicate NulFree(m: Metadata) {
    NulFree4(m.backendId, m.refId, m.kekRef, m.kekVersion)
  }

  /**
  A sealed term opens under other metadata exactly when backend, ref, KEK ref
  and KEK version all agree: no bundle can be relabelled or swapped.
  */
  lemma OpensOnlyUnderItsLabels(secret: Secret, key: Secret, m: Metadata, other: Metadata, material: Material,
                                nonce: nat)
    requires NulFree(m)
    ensures Open(key, nonce, Aad(other), Seal(secret, m, material, nonce).ciphertext).Some?
       <==> (key == secret && SameLabels(m, other))
  {
    if Aad(other) == Aad(m) {
      NulFreeJoinIsUnique(m.backendId, m.refId, m.kekRef, m.kekVersion,
                          other.backendId, other.refId, other.kekRef, other.kekVersion);
    }
  }

  /** The labels bind a sealed term exactly when none of them holds a NUL: otherwise it opens under others too. */
  lemma LabelsBindIffNulFree(secret: Secret, m: Metadata, material: Material, nonce: nat)
    ensures NulFree(m)
       <==> forall other | Open(secret, nonce, Aad(other), Seal(secret, m, material, nonce).ciphertext).Some? ::
              SameLabels(m, other)
  {
    if NulFree(m) {
      forall other | Open(secret, nonce, Aad(other), Seal(secret, m, material, nonce).ciphertext).Some?
        ensures SameLabels(m, other)
      {
        OpensOnlyUnderItsLabels(secret, secret, m, other, material, nonce);
      }
    } else {
      var p, q, r, s := NulMakesJoinAmbiguous(m.backendId, m.refId, m.kekRef, m.kekVersion);
      var other := m.(backendId := p, refId := q, kekRef := r, kekVersion := s);
      assert Aad(other) == Aad(m);
    }
  }
}
