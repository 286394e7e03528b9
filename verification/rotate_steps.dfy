/**
The custody rotate step: it inspects a ref and rotates it in two separate
critical sections. Any number of such steps on one ref interleave with each
other and with anything else the store does.
*/
module RotateSteps {
  import opened Common
  import opened SealedModel
  import opened SealedRuns

  type StepId = nat

  /** One rotate step per id: the version it rotates to, the KEK ref it asks for. */
  datatype Request = Request(newKekRef: string, newVersion: string, now: int, readable: bool, io: WriteIo)

  type Requests = map<StepId, Request>

  datatype Action =
    | InspectPhase(id: StepId, clock: int)  // one that cannot read the file ends its step and changes nothing
    | RotatePhase(id: StepId, clock: int, dies: Option<nat>)  // the process may die inside the write
    | Elsewhere(event: Event)

  /**
  The vault, what each step saw when it inspected, and whose rotation has been
  made durable. Letting a step rotate again only adds interleavings.
  */
  datatype World = World(vault: Vault, seen: map<StepId, string>, winners: set<StepId>)

  function RotateOp(ref: string, seen: string, r: Request): Op {
    Rotate(ref, seen, r.newKekRef, r.newVersion, r.now, r.readable, r.io)
  }

  function RotateEvent(op: Op, clock: int, dies: Option<nat>): Event {
    match dies
    case None => Returns(op, clock)
    case Some(at) => Crashes(op, clock, at)
  }

  function Act(h: Host, rs: Requests, ref: string, w: World, a: Action): World {
    match a
    case InspectPhase(id, clock) =>
      (match Call(h, w.vault, Inspect(ref, true), clock).1
       case Ok(meta) => if id in rs && id !in w.seen then w.(seen := w.seen[id := meta.kekVersion]) else w
       case Err(_) => w)
    case RotatePhase(id, clock, dies) =>
      if id in rs && id in w.seen then
        var e := RotateEvent(RotateOp(ref, w.seen[id], rs[id]), clock, dies);
        World(Next(h, w.vault, e), w.seen, if Committed(h, w.vault, e).Some? then w.winners + {id} else w.winners)
      else w
    case Elsewhere(e) => w.(vault := Next(h, w.vault, e))
  }

  function ActAll(h: Host, rs: Requests, ref: string, w: World, actions: seq<Action>): World
    decreases |actions|
  {
    if actions == [] then w else ActAll(h, rs, ref, Act(h, rs, ref, w, actions[0]), actions[1..])
  }

  /** Other activity commits no Create and no Rotate of this ref; it may try and fail, or crash before the rename. */
  predicate LeavesVersion(h: Host, v: Vault, ref: string, a: Action) {
    a.Elsewhere? && Committed(h, v, a.event).Some? && a.event.op.ref == ref ==>
      !(a.event.op.Create? || a.event.op.Rotate?)
  }

  /** Every action of an interleaving leaves the version alone, in the state it meets. */
  ghost predicate Undisturbed(h: Host, rs: Requests, ref: string, w: World, actions: seq<Action>)
    decreases |actions|
  {
    || actions == []
    || (LeavesVersion(h, w.vault, ref, actions[0])
        && Undisturbed(h, rs, ref, Act(h, rs, ref, w, actions[0]), actions[1..]))
  }

  ghost predicate InBounds(refs: set<string>, a: Action) {
    a.Elsewhere? ==> Within(refs, a.event)
  }

  ghost predicate Distinct(rs: Requests) {
    forall a, b | a in rs && b in rs && a != b :: rs[a].newVersion != rs[b].newVersion
  }

  ghost predicate Fresh(rs: Requests, first: string) {
    forall a | a in rs :: rs[a].newVersion != first
  }

  // ---------- the race: what the interleaving amounts to for one ref ----------

  datatype Race = Race(winners: set<StepId>, seen: map<StepId, string>, current: string)

  datatype Move = Stays | Inspects(id: StepId) | Wins(id: StepId)

  /** A step inspects once, and wins only when what it saw is still current. */
  ghost predicate CanMove(rs: Requests, r: Race, m: Move) {
    match m
    case Stays => true
    case Inspects(id) => id in rs && id !in r.seen
    case Wins(id) => id in rs && id in r.seen && r.seen[id] == r.current
  }

  ghost function After(rs: Requests, r: Race, m: Move): Race
    requires CanMove(rs, r, m)
  {
    match m
    case Stays => r
    case Inspects(id) => r.(seen := r.seen[id := r.current])
    case Wins(id) => r.(winners := r.winners + {id}, current := rs[id].newVersion)
  }

  ghost predicate Stored(h: Host, w: World, ref: string) {
    match StoredAt(h, w.vault.files, ref)
    case Some(Document(_)) => true
    case _ => false
  }

  ghost function RaceOf(h: Host, w: World, ref: string): Race
    requires Stored(h, w, ref)
  {
    Race(w.winners, w.seen, StoredAt(h, w.vault.files, ref).value.bundle.meta.kekVersion)
  }

  /** A rotation that becomes durable found the version it expected and leaves its target. */
  lemma CommittedRotateMoves(h: Host, refs: set<string>, v: Vault, l: Ledger, e: Event)
    requires InUse(h, refs) && Within(refs, e) && Sound(h, refs, v.files, l)
    requires !e.Reopens? && e.op.Rotate? && Committed(h, v, e).Some?
    ensures match (StoredAt(h, v.files, e.op.ref), StoredAt(h, Next(h, v, e).files, e.op.ref))
      case (Some(Document(b)), Some(Document(b'))) =>
        b.meta.kekVersion == e.op.expected && b'.meta.kekVersion == e.op.newVersion
      case _ => false
  {
    EventEffect(h, refs, v, e, e.op.ref);
  }

  lemma RotatePhaseMoves(h: Host, refs: set<string>, rs: Requests, ref: string, w: World, l: Ledger, id: StepId,
                         clock: int, dies: Option<nat>) returns (m: Move)
    requires InUse(h, refs) && ref in refs && Sound(h, refs, w.vault.files, l) && Stored(h, w, ref)
    requires id in rs && id in w.seen
    ensures CanMove(rs, RaceOf(h, w, ref), m)
    ensures var w' := Act(h, rs, ref, w, RotatePhase(id, clock, dies));
      Stored(h, w', ref) && RaceOf(h, w', ref) == After(rs, RaceOf(h, w, ref), m)
  {
    var e := RotateEvent(RotateOp(ref, w.seen[id], rs[id]), clock, dies);
    if Committed(h, w.vault, e).Some? {
      CommittedRotateMoves(h, refs, w.vault, l, e);
      m := Wins(id);
    } else {
      EventEffect(h, refs, w.vault, e, ref);
      m := Stays;
    }
  }

  lemma ElsewhereStays(h: Host, refs: set<string>, rs: Requests, ref: string, w: World, l: Ledger, e: Event)
    requires InUse(h, refs) && ref in refs && Sound(h, refs, w.vault.files, l) && Stored(h, w, ref)
    requires LeavesVersion(h, w.vault, ref, Elsewhere(e)) && Within(refs, e)
    ensures var w' := Act(h, rs, ref, w, Elsewhere(e)); Stored(h, w', ref) && RaceOf(h, w', ref) == RaceOf(h, w, ref)
  {
    EventEffect(h, refs, w.vault, e, ref);
  }

  /** The store event behind an action, if it reaches the store. */
  ghost function EventOf(rs: Requests, ref: string, w: World, a: Action): Option<Event> {
    match a
    case InspectPhase(_, _) => None
    case RotatePhase(id, clock, dies) =>
      if id in rs && id in w.seen then Some(RotateEvent(RotateOp(ref, w.seen[id], rs[id]), clock, dies)) else None
    case Elsewhere(e) => Some(e)
  }

  /** Every action, crashed ones included, is a move of the race, and keeps the store sound. */
  lemma ActionMoves(h: Host, refs: set<string>, rs: Requests, ref: string, w: World, l: Ledger, a: Action)
    returns (m: Move, l': Ledger)
    requires InUse(h, refs) && ref in refs && Sound(h, refs, w.vault.files, l) && Stored(h, w, ref)
    requires LeavesVersion(h, w.vault, ref, a) && InBounds(refs, a)
    ensures Sound(h, refs, Act(h, rs, ref, w, a).vault.files, l')
    ensures CanMove(rs, RaceOf(h, w, ref), m)
    ensures var w' := Act(h, rs, ref, w, a);
      Stored(h, w', ref) && RaceOf(h, w', ref) == After(rs, RaceOf(h, w, ref), m)
  {
    var e := EventOf(rs, ref, w, a);
    l' := if e.Some? then Record(h, w.vault, l, e.value) else l;
    m := Stays;
    if e.Some? {
      EventStaysSound(h, refs, w.vault, l, e.value);
    }
    if e.Some? && a.RotatePhase? {
      m := RotatePhaseMoves(h, refs, rs, ref, w, l, a.id, a.clock, a.dies);
    } else if a.Elsewhere? {
      ElsewhereStays(h, refs, rs, ref, w, l, a.event);
    } else if a.InspectPhase? && Act(h, rs, ref, w, a) != w {
      m := Inspects(a.id);
    }
  }

  // ---------- what the moves keep ----------

  /** With fresh distinct targets: winners saw different versions, none of them still current. */
  ghost predicate Kept(rs: Requests, r: Race) {
    && r.winners <= r.seen.Keys <= rs.Keys
    && (forall a, b | a in r.winners && b in r.winners && a != b :: r.seen[a] != r.seen[b])
    && (forall a | a in r.winners :: r.seen[a] != r.current)
    // nobody has seen the target of a step that has not won yet
    && (forall a, t | a in r.seen && t in rs && t !in r.winners :: r.seen[a] != rs[t].newVersion)
    && (forall t | t in rs && t !in r.winners :: r.current != rs[t].newVersion)
  }

  lemma MoveKeeps(rs: Requests, r: Race, m: Move)
    requires Distinct(rs) && Kept(rs, r) && CanMove(rs, r, m)
    ensures Kept(rs, After(rs, r, m))
  {
    if m.Wins? {
      assert m.id !in r.winners;  // no winner has seen the current version
    }
  }

  /** With fresh targets, shared or not: the first version is taken once, and by then it is gone for good. */
  ghost predicate FirstTakenOnce(rs: Requests, r: Race, first: string) {
    && r.winners <= r.seen.Keys <= rs.Keys
    && (r.winners == {} ==> r.current == first)
    && (r.winners != {} ==> r.current != first && exists a :: a in r.winners && r.seen[a] == first)
    && (forall a, b | a in r.winners && b in r.winners && a != b :: r.seen[a] != first || r.seen[b] != first)
  }

  lemma MoveTakesFirstOnce(rs: Requests, r: Race, first: string, m: Move)
    requires Fresh(rs, first) && FirstTakenOnce(rs, r, first) && CanMove(rs, r, m)
    ensures FirstTakenOnce(rs, After(rs, r, m), first)
  {
    var next := After(rs, r, m);
    if r.winners != {} {
      var a :| a in r.winners && r.seen[a] == first;
      assert a in next.winners && next.seen[a] == first;
    } else if m.Wins? {
      assert m.id in next.winners && next.seen[m.id] == first;
    }
  }

  lemma {:induction false} ActionsKeep(h: Host, refs: set<string>, rs: Requests, ref: string, w: World, l: Ledger,
                                       actions: seq<Action>, first: string)
    requires InUse(h, refs) && ref in refs && Sound(h, refs, w.vault.files, l) && Stored(h, w, ref)
    requires Undisturbed(h, rs, ref, w, actions) && forall a | a in actions :: InBounds(refs, a)
    ensures Stored(h, ActAll(h, rs, ref, w, actions), ref)
    ensures w.winners <= w.seen.Keys <= rs.Keys ==>
      ActAll(h, rs, ref, w, actions).winners <= ActAll(h, rs, ref, w, actions).seen.Keys <= rs.Keys
    ensures Distinct(rs) && Kept(rs, RaceOf(h, w, ref)) ==> Kept(rs, RaceOf(h, ActAll(h, rs, ref, w, actions), ref))
    ensures Fresh(rs, first) && FirstTakenOnce(rs, RaceOf(h, w, ref), first) ==>
      FirstTakenOnce(rs, RaceOf(h, ActAll(h, rs, ref, w, actions), ref), first)
    decreases |actions|
  {
    if actions != [] {
      var m, l' := ActionMoves(h, refs, rs, ref, w, l, actions[0]);
      if Distinct(rs) && Kept(rs, RaceOf(h, w, ref)) {
        MoveKeeps(rs, RaceOf(h, w, ref), m);
      }
      if Fresh(rs, first) && FirstTakenOnce(rs, RaceOf(h, w, ref), first) {
        MoveTakesFirstOnce(rs, RaceOf(h, w, ref), first, m);
      }
      ActionsKeep(h, refs, rs, ref, Act(h, rs, ref, w, actions[0]), l', actions[1..], first);
    }
  }

  /**
  With fresh, pairwise distinct target versions and no Create of the ref
  committed, no two rotate steps whose rotation became durable, crashed ones
  included, inspected the same version, in any interleaving.
  */
  lemma WinnersSawDifferentVersions(h: Host, refs: set<string>, rs: Requests, ref: string, b: Bundle, v: Vault,
                                    l: Ledger, actions: seq<Action>, one: StepId, two: StepId)
    requires InUse(h, refs) && ref in refs && Sound(h, refs, v.files, l)
    requires StoredAt(h, v.files, ref) == Some(Document(b))
    requires Distinct(rs) && Fresh(rs, b.meta.kekVersion)
    requires Undisturbed(h, rs, ref, World(v, map[], {}), actions) && forall a | a in actions :: InBounds(refs, a)
    requires var end := ActAll(h, rs, ref, World(v, map[], {}), actions);
      one in end.winners && two in end.winners && one != two
    ensures var end := ActAll(h, rs, ref, World(v, map[], {}), actions);
      one in end.seen && two in end.seen && end.seen[one] != end.seen[two]
  {
    ActionsKeep(h, refs, rs, ref, World(v, map[], {}), l, actions, b.meta.kekVersion);
  }

  /** The steps whose rotate call returned without an error, each with the version it had inspected. */
  function Succeeded(h: Host, rs: Requests, ref: string, w: World, actions: seq<Action>): set<(StepId, string)>
    decreases |actions|
  {
    if actions == [] then {}
    else
      var a := actions[0];
      (if a.RotatePhase? && a.dies.None? && a.id in rs && a.id in w.seen
          && Call(h, w.vault, RotateOp(ref, w.seen[a.id], rs[a.id]), a.clock).1.Ok? then {(a.id, w.seen[a.id])} else {})
        + Succeeded(h, rs, ref, Act(h, rs, ref, w, a), actions[1..])
  }

  /** For a call that returns, success and durability are the same. */
  lemma SuccessIsDurable(h: Host, v: Vault, op: Op, clock: int)
    requires op.Rotate?
    ensures Call(h, v, op, clock).1.Ok? <==> Committed(h, v, Returns(op, clock)).Some?
  {}

  lemma {:induction false} SightsAndWinsStay(h: Host, rs: Requests, ref: string, w: World, actions: seq<Action>,
                                             id: StepId)
    requires id in w.seen
    ensures var end := ActAll(h, rs, ref, w, actions);
      id in end.seen && end.seen[id] == w.seen[id] && (id in w.winners ==> id in end.winners)
    decreases |actions|
  {
    if actions != [] {
      SightsAndWinsStay(h, rs, ref, Act(h, rs, ref, w, actions[0]), actions[1..], id);
    }
  }

  /** A step that was told it succeeded has won, on the version it inspected. */
  lemma {:induction false} SuccessfulStepsWin(h: Host, rs: Requests, ref: string, w: World, actions: seq<Action>,
                                              id: StepId, saw: string)
    requires (id, saw) in Succeeded(h, rs, ref, w, actions)
    ensures var end := ActAll(h, rs, ref, w, actions);
      id in end.winners && id in end.seen && end.seen[id] == saw
    decreases |actions|
  {
    var a, rest := actions[0], actions[1..];
    var next := Act(h, rs, ref, w, a);
    if (id, saw) in Succeeded(h, rs, ref, next, rest) {
      SuccessfulStepsWin(h, rs, ref, next, rest, id, saw);
    } else {
      SuccessIsDurable(h, w.vault, RotateOp(ref, w.seen[id], rs[id]), a.clock);
      SightsAndWinsStay(h, rs, ref, next, rest, id);
    }
  }

  /** What the callers see of it: no two steps that returned success had inspected the same version. */
  lemma SuccessfulStepsSawDifferentVersions(h: Host, refs: set<string>, rs: Requests, ref: string, b: Bundle, v: Vault,
                                            l: Ledger, actions: seq<Action>, one: (StepId, string),
                                            two: (StepId, string))
    requires InUse(h, refs) && ref in refs && Sound(h, refs, v.files, l)
    requires StoredAt(h, v.files, ref) == Some(Document(b))
    requires Distinct(rs) && Fresh(rs, b.meta.kekVersion)
    requires Undisturbed(h, rs, ref, World(v, map[], {}), actions) && forall a | a in actions :: InBounds(refs, a)
    requires var succeeded := Succeeded(h, rs, ref, World(v, map[], {}), actions);
      one in succeeded && two in succeeded && one.0 != two.0
    ensures one.1 != two.1
  {
    SuccessfulStepsWin(h, rs, ref, World(v, map[], {}), actions, one.0, one.1);
    SuccessfulStepsWin(h, rs, ref, World(v, map[], {}), actions, two.0, two.1);
    WinnersSawDifferentVersions(h, refs, rs, ref, b, v, l, actions, one.0, two.0);
  }

  /** With fresh targets alone, no two winners saw the version the race began with. */
  lemma FirstVersionIsTakenOnce(h: Host, refs: set<string>, rs: Requests, ref: string, b: Bundle, v: Vault,
                                l: Ledger, actions: seq<Action>, one: StepId, two: StepId)
    requires InUse(h, refs) && ref in refs && Sound(h, refs, v.files, l)
    requires StoredAt(h, v.files, ref) == Some(Document(b)) && Fresh(rs, b.meta.kekVersion)
    requires Undisturbed(h, rs, ref, World(v, map[], {}), actions) && forall a | a in actions :: InBounds(refs, a)
    requires var end := ActAll(h, rs, ref, World(v, map[], {}), actions);
      one in end.winners && two in end.winners && one != two
    ensures var end := ActAll(h, rs, ref, World(v, map[], {}), actions);
      && end.winners <= end.seen.Keys <= rs.Keys
      && (end.seen[one] != b.meta.kekVersion || end.seen[two] != b.meta.kekVersion)
      && exists a :: a in end.winners && end.seen[a] == b.meta.kekVersion
  {
    ActionsKeep(h, refs, rs, ref, World(v, map[], {}), l, actions, b.meta.kekVersion);
  }

  // ---------- exactly when two winners can have seen one version ----------

  /** Nothing in the environment stands in the way of this rotation. */
  predicate GoesThrough(h: Host, files: Files, ref: string, r: Request) {
    && r.readable && r.io.fault == NoFault && TempName(h, ref, r.io.suffix) !in files
    && r.newVersion != "" && (r.newKekRef == "" || h.resolve(r.newKekRef).Some?)
  }

  /** The ref is stored under the store's pair, active, at this version, and every rotation of it goes through. */
  ghost predicate Ready(h: Host, refs: set<string>, rs: Requests, v: Vault, l: Ledger, ref: string, version: string) {
    && InUse(h, refs) && ref in refs && ref != "" && version != "" && Sound(h, refs, v.files, l)
    && (forall id | id in rs :: GoesThrough(h, v.files, ref, rs[id]))
    && match StoredAt(h, v.files, ref)
       case Some(Document(b)) => PairMatches(v.cfg, b) && b.meta.state == Active && b.meta.kekVersion == version
       case _ => false
  }

  lemma ReadyRotateSucceeds(h: Host, refs: set<string>, rs: Requests, v: Vault, l: Ledger, ref: string,
                            version: string, id: StepId, clock: int)
    requires Ready(h, refs, rs, v, l, ref, version) && id in rs
    ensures Committed(h, v, Returns(RotateOp(ref, version, rs[id]), clock)).Some?
  {
    ReadableIffPairMatches(h, refs, v.cfg, v.files, l, ref);
  }

  /** A rotation of a ready ref goes through and leaves it ready at the target version. */
  lemma ReadyStaysReady(h: Host, refs: set<string>, rs: Requests, v: Vault, l: Ledger, ref: string, version: string,
                        id: StepId, clock: int)
    requires Ready(h, refs, rs, v, l, ref, version) && id in rs
    ensures var e := Returns(RotateOp(ref, version, rs[id]), clock);
      Ready(h, refs, rs, Next(h, v, e), Record(h, v, l, e), ref, rs[id].newVersion)
  {
    var e := Returns(RotateOp(ref, version, rs[id]), clock);
    ReadyRotateSucceeds(h, refs, rs, v, l, ref, version, id, clock);
    EventStaysSound(h, refs, v, l, e);
    EventEffect(h, refs, v, e, ref);
    forall other | other in rs
      ensures GoesThrough(h, Next(h, v, e).files, ref, rs[other])
    {
      TempIsNoBundle(h, ref, rs[other].io.suffix, ref);
    }
  }

  /** A course of events so far: where it leads, and that the ref is still ready there. */
  ghost predicate Course(h: Host, refs: set<string>, rs: Requests, ref: string, start: World, actions: seq<Action>,
                         end: World, l: Ledger, version: string) {
    && (forall a | a in actions :: !a.Elsewhere?)
    && ActAll(h, rs, ref, start, actions) == end
    && Ready(h, refs, rs, end.vault, l, ref, version)
  }

  lemma {:induction false} ActLast(h: Host, rs: Requests, ref: string, w: World, actions: seq<Action>, a: Action)
    ensures ActAll(h, rs, ref, w, actions + [a]) == Act(h, rs, ref, ActAll(h, rs, ref, w, actions), a)
    decreases |actions|
  {
    if actions == [] {
      assert [a][1..] == [];
    } else {
      assert (actions + [a])[1..] == actions[1..] + [a];
      ActLast(h, rs, ref, Act(h, rs, ref, w, actions[0]), actions[1..], a);
    }
  }

  lemma ThenInspect(h: Host, refs: set<string>, rs: Requests, ref: string, start: World, actions: seq<Action>,
                    w: World, l: Ledger, version: string, id: StepId) returns (more: seq<Action>, w': World)
    requires Course(h, refs, rs, ref, start, actions, w, l, version) && id in rs && id !in w.seen
    ensures w' == w.(seen := w.seen[id := version])
    ensures Course(h, refs, rs, ref, start, more, w', l, version)
  {
    more, w' := actions + [InspectPhase(id, 0)], Act(h, rs, ref, w, InspectPhase(id, 0));
    ActLast(h, rs, ref, start, actions, InspectPhase(id, 0));
    ReadableIffPairMatches(h, refs, w.vault.cfg, w.vault.files, l, ref);
  }

  lemma ThenRotate(h: Host, refs: set<string>, rs: Requests, ref: string, start: World, actions: seq<Action>,
                   w: World, l: Ledger, version: string, id: StepId)
    returns (more: seq<Action>, w': World, l': Ledger)
    requires Course(h, refs, rs, ref, start, actions, w, l, version) && id in rs
    requires id in w.seen && w.seen[id] == version
    ensures w'.seen == w.seen && w'.winners == w.winners + {id}
    ensures Course(h, refs, rs, ref, start, more, w', l', rs[id].newVersion)
  {
    var a := RotatePhase(id, 0, None);
    more, w' := actions + [a], Act(h, rs, ref, w, a);
    l' := Record(h, w.vault, l, Returns(RotateOp(ref, version, rs[id]), 0));
    ActLast(h, rs, ref, start, actions, a);
    ReadyRotateSucceeds(h, refs, rs, w.vault, l, ref, version, id, 0);
    ReadyStaysReady(h, refs, rs, w.vault, l, ref, version, id, 0);
  }

  /** An interleaving without a Create in which two different steps won although they had seen one version. */
  ghost predicate Clash(h: Host, refs: set<string>, rs: Requests, ref: string, v: Vault, actions: seq<Action>,
                        one: StepId, two: StepId) {
    && Undisturbed(h, rs, ref, World(v, map[], {}), actions) && (forall a | a in actions :: InBounds(refs, a))
    && var end := ActAll(h, rs, ref, World(v, map[], {}), actions);
       && one in end.winners && two in end.winners && one != two
       && one in end.seen && two in end.seen && end.seen[one] == end.seen[two]
  }

  lemma {:induction false} PhasesDisturbNothing(h: Host, rs: Requests, ref: string, w: World, actions: seq<Action>)
    requires forall a | a in actions :: !a.Elsewhere?
    ensures Undisturbed(h, rs, ref, w, actions)
    decreases |actions|
  {
    if actions != [] {
      PhasesDisturbNothing(h, rs, ref, Act(h, rs, ref, w, actions[0]), actions[1..]);
    }
  }

  /** A target equal to the version the race begins with lets any second step win on the same sight. */
  lemma StaleTargetClashes(h: Host, refs: set<string>, rs: Requests, ref: string, v: Vault, l: Ledger, first: string,
                           a: StepId, b: StepId) returns (actions: seq<Action>)
    requires Ready(h, refs, rs, v, l, ref, first) && a in rs && b in rs && a != b && rs[a].newVersion == first
    ensures Clash(h, refs, rs, ref, v, actions, a, b)
  {
    var start := World(v, map[], {});
    var w, l' := start, l;
    actions := [];
    actions, w := ThenInspect(h, refs, rs, ref, start, actions, w, l, first, a);
    actions, w := ThenInspect(h, refs, rs, ref, start, actions, w, l, first, b);
    actions, w, l' := ThenRotate(h, refs, rs, ref, start, actions, w, l, first, a);
    actions, w, l' := ThenRotate(h, refs, rs, ref, start, actions, w, l', first, b);
    PhasesDisturbNothing(h, rs, ref, start, actions);
  }

  /** A target that two steps share lets one of them and any third step win on the same sight. */
  lemma SharedTargetClashes(h: Host, refs: set<string>, rs: Requests, ref: string, v: Vault, l: Ledger, first: string,
                            a: StepId, b: StepId, c: StepId) returns (actions: seq<Action>)
    requires Ready(h, refs, rs, v, l, ref, first) && a in rs && b in rs && c in rs && a != b && a != c && b != c
    requires rs[a].newVersion == rs[b].newVersion
    ensures Clash(h, refs, rs, ref, v, actions, b, c)
  {
    var start := World(v, map[], {});
    var w, l', shared := start, l, rs[a].newVersion;
    actions := [];
    actions, w := ThenInspect(h, refs, rs, ref, start, actions, w, l, first, a);
    actions, w, l' := ThenRotate(h, refs, rs, ref, start, actions, w, l, first, a);
    actions, w := ThenInspect(h, refs, rs, ref, start, actions, w, l', shared, b);
    actions, w := ThenInspect(h, refs, rs, ref, start, actions, w, l', shared, c);
    actions, w, l' := ThenRotate(h, refs, rs, ref, start, actions, w, l', shared, b);
    actions, w, l' := ThenRotate(h, refs, rs, ref, start, actions, w, l', shared, c);
    PhasesDisturbNothing(h, rs, ref, start, actions);
  }

  lemma AtLeast(ids: set<StepId>, some: set<StepId>)
    requires some <= ids
    ensures |ids| >= |some|
  {
    assert ids == some + (ids - some);
  }

  /** Under fresh targets a clash takes three steps: the two, and the one that took the first version. */
  lemma FreshClashTakesThree(h: Host, refs: set<string>, rs: Requests, ref: string, v: Vault, l: Ledger, first: string,
                             actions: seq<Action>, one: StepId, two: StepId)
    requires Ready(h, refs, rs, v, l, ref, first) && Clash(h, refs, rs, ref, v, actions, one, two) && Fresh(rs, first)
    ensures |rs.Keys| >= 3
  {
    var b := StoredAt(h, v.files, ref).value.bundle;
    FirstVersionIsTakenOnce(h, refs, rs, ref, b, v, l, actions, one, two);
    var end := ActAll(h, rs, ref, World(v, map[], {}), actions);
    var a :| a in end.winners && end.seen[a] == first;
    AtLeast(rs.Keys, {one, two, a});
  }

  lemma ClashTakesTwo(h: Host, refs: set<string>, rs: Requests, ref: string, v: Vault, l: Ledger, first: string,
                      actions: seq<Action>, one: StepId, two: StepId)
    requires Ready(h, refs, rs, v, l, ref, first) && Clash(h, refs, rs, ref, v, actions, one, two)
    ensures |rs.Keys| >= 2
  {
    ActionsKeep(h, refs, rs, ref, World(v, map[], {}), l, actions, first);
    AtLeast(rs.Keys, {one, two});
  }

  lemma NoClashWhenSafe(h: Host, refs: set<string>, rs: Requests, ref: string, v: Vault, l: Ledger, first: string,
                        actions: seq<Action>, one: StepId, two: StepId)
    requires Ready(h, refs, rs, v, l, ref, first) && Clash(h, refs, rs, ref, v, actions, one, two)
    ensures |rs| >= 2 && (!Fresh(rs, first) || (|rs| >= 3 && !Distinct(rs)))
  {
    assert |rs.Keys| == |rs|;
    ClashTakesTwo(h, refs, rs, ref, v, l, first, actions, one, two);
    if Fresh(rs, first) {
      FreshClashTakesThree(h, refs, rs, ref, v, l, first, actions, one, two);
      if Distinct(rs) {
        var b := StoredAt(h, v.files, ref).value.bundle;
        WinnersSawDifferentVersions(h, refs, rs, ref, b, v, l, actions, one, two);
      }
    }
  }

  lemma AnotherStep(ids: set<StepId>, some: set<StepId>) returns (other: StepId)
    requires some <= ids && |ids| > |some|
    ensures other in ids && other !in some
  {
    assert ids - some != {} by {
      assert ids == some + (ids - some);
    }
    other :| other in ids - some;
  }

  /**
  The exact condition. For a ready ref and rotations that go through, some
  interleaving lets two steps win on the same sight if and only if a target is
  the version the race begins with and there are two steps, or two targets are
  equal and there are three.
  */
  lemma ClashExactly(h: Host, refs: set<string>, rs: Requests, ref: string, v: Vault, l: Ledger, first: string)
    requires Ready(h, refs, rs, v, l, ref, first)
    ensures (exists actions, one, two :: Clash(h, refs, rs, ref, v, actions, one, two))
       <==> |rs| >= 2 && (!Fresh(rs, first) || (|rs| >= 3 && !Distinct(rs)))
  {
    forall actions, one, two | Clash(h, refs, rs, ref, v, actions, one, two)
      ensures |rs| >= 2 && (!Fresh(rs, first) || (|rs| >= 3 && !Distinct(rs)))
    {
      NoClashWhenSafe(h, refs, rs, ref, v, l, first, actions, one, two);
    }
    assert |rs.Keys| == |rs|;
    if |rs| >= 2 && !Fresh(rs, first) {
      var a :| a in rs && rs[a].newVersion == first;
      var b := AnotherStep(rs.Keys, {a});
      var actions := StaleTargetClashes(h, refs, rs, ref, v, l, first, a, b);
    } else if |rs| >= 3 && !Distinct(rs) {
      var a, b :| a in rs && b in rs && a != b && rs[a].newVersion == rs[b].newVersion;
      var c := AnotherStep(rs.Keys, {a, b});
      var actions := SharedTargetClashes(h, refs, rs, ref, v, l, first, a, b, c);
    }
  }
}
