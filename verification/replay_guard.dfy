/**
The linked-device replay guard: a map from consent refs to expiries, purged in
place on every call that gets as far as the lock. The clock is read before the
lock is taken, so the calls below are listed in lock order, with clock readings
that need not follow it.
*/
module ReplayGuard {
  import opened Common

  datatype Ceremony = Ceremony(
    displayName: string, consentRef: string, consentExpires: int, revocationUri: string, unlinkProofRef: string)

  /** One call, with the clock reading it made. */
  datatype Call = Call(ceremony: Option<Ceremony>, now: int)

  datatype Verdict =
    | Accepted | CeremonyRequired | DisplayNameRequired | ConsentRefRequired | ExpiryRequired | ConsentExpired
    | RevocationUriRequired | UnlinkProofRequired | UnlinkProofRevoked | ConsentReplay

  const REVOKED_SCHEME := "revoked://"

  /** The checks made before the lock; None means the call goes on to lock. */
  function Precheck(c: Call): Option<Verdict> {
    match c.ceremony
    case None => Some(CeremonyRequired)
    case Some(x) =>
      if x.displayName == "" then Some(DisplayNameRequired)
      else if x.consentRef == "" then Some(ConsentRefRequired)
      else if x.consentExpires == 0 then Some(ExpiryRequired)
      else if x.consentExpires <= c.now then Some(ConsentExpired)
      else if x.revocationUri == "" then Some(RevocationUriRequired)
      else if x.unlinkProofRef == "" then Some(UnlinkProofRequired)
      else if REVOKED_SCHEME <= x.unlinkProofRef then Some(UnlinkProofRevoked)
      else None
  }

  predicate Locks(c: Call) {
    Precheck(c).None?
  }

  type Claims = map<string, int>

  function Purge(claims: Claims, now: int): Claims {
    map claim | claim in claims && claims[claim] > now :: claims[claim]
  }

  function Validate(claims: Claims, c: Call): (Claims, Verdict) {
    match Precheck(c)
    case Some(v) => (claims, v)
    case None =>
      var left, x := Purge(claims, c.now), c.ceremony.value;
      if x.consentRef in left then (left, ConsentReplay)
      else (left[x.consentRef := x.consentExpires], Accepted)
  }

  /** The guard as the plugin runs it: the purge visits and deletes in any order. */
  class CeremonyGuard {
    var claims: Claims

    constructor ()
      ensures claims == map[]
    {
      claims := map[];
    }

    method ValidateCeremony(ceremony: Option<Ceremony>, now: int) returns (verdict: Verdict)
      modifies this
      ensures (claims, verdict) == Validate(old(claims), Call(ceremony, now))
    {
      if ceremony.None? {
        return CeremonyRequired;
      }
      var x := ceremony.value;
      if x.displayName == "" {
        return DisplayNameRequired;
      }
      if x.consentRef == "" {
        return ConsentRefRequired;
      }
      if x.consentExpires == 0 {
        return ExpiryRequired;
      }
      if x.consentExpires <= now {
        return ConsentExpired;
      }
      if x.revocationUri == "" {
        return RevocationUriRequired;
      }
      if x.unlinkProofRef == "" {
        return UnlinkProofRequired;
      }
      if REVOKED_SCHEME <= x.unlinkProofRef {
        return UnlinkProofRevoked;
      }
      var pending := claims.Keys;
      while pending != {}
        invariant pending <= claims.Keys <= old(claims).Keys
        invariant forall c | c in claims :: claims[c] == old(claims)[c]
        invariant forall c | c in claims && c !in pending :: claims[c] > now
        invariant forall c | c in old(claims) && c !in claims :: old(claims)[c] <= now
        decreases pending
      {
        var claim :| claim in pending;
        if claims[claim] <= now {
          claims := claims - {claim};
        }
        pending := pending - {claim};
      }
      assert claims == Purge(old(claims), now);
      var claim := x.consentRef;
      if claim in claims {
        return ConsentReplay;
      }
      claims := claims[claim := x.consentExpires];
      return Accepted;
    }
  }

  // ---------- which ceremonies reach the lock ----------

  /** What a ceremony lacks first at this reading of the clock, if anything. */
  function Lacking(ceremony: Option<Ceremony>, now: int): Option<Verdict> {
    match ceremony
    case None => Some(CeremonyRequired)
    case Some(x) =>
      Demand(x.displayName != "", DisplayNameRequired,
      Demand(x.consentRef != "", ConsentRefRequired,
      Demand(x.consentExpires != 0, ExpiryRequired,
      Demand(x.consentExpires > now, ConsentExpired,
      Demand(x.revocationUri != "", RevocationUriRequired,
      Demand(x.unlinkProofRef != "", UnlinkProofRequired,
      Demand(!("revoked://" <= x.unlinkProofRef), UnlinkProofRevoked, None)))))))
  }

  /**
  One call, from any map: a complete ceremony whose proof is not revoked is
  decided by the map once what has expired is dropped from it; any other is
  refused for what it lacks first, and the map is not touched.
  */
  lemma CeremonyVerdict(claims: Claims, ceremony: Option<Ceremony>, now: int)
    ensures var (after, verdict) := Validate(claims, Call(ceremony, now));
      && Locks(Call(ceremony, now)) == Lacking(ceremony, now).None?
      && (verdict == Accepted || verdict == ConsentReplay <==> Lacking(ceremony, now).None?)
      && match Lacking(ceremony, now)
         case Some(v) => verdict == v && after == claims
         case None =>
           var consent := ceremony.value.consentRef;
           && (verdict == ConsentReplay <==> consent in claims && claims[consent] > now)
           && (forall c | c != consent :: c in after <==> c in claims && claims[c] > now)
           && (forall c | c != consent && c in after :: after[c] == claims[c])
           && consent in after
           && after[consent] == if verdict == ConsentReplay then claims[consent] else ceremony.value.consentExpires
  {}

  // ---------- runs, by position in lock order ----------

  function ClaimsAfter(calls: seq<Call>, n: nat): Claims
    requires n <= |calls|
  {
    if n == 0 then map[] else Validate(ClaimsAfter(calls, n - 1), calls[n - 1]).0
  }

  function VerdictAt(calls: seq<Call>, j: nat): Verdict
    requires j < |calls|
  {
    Validate(ClaimsAfter(calls, j), calls[j]).1
  }

  predicate AcceptedFor(calls: seq<Call>, i: nat, consent: string)
    requires i < |calls|
  {
    Locks(calls[i]) && calls[i].ceremony.value.consentRef == consent && VerdictAt(calls, i) == Accepted
  }

  /** Some call at positions from+1 .. n-1 ran the purge with a clock reading at or past the expiry of call `from`. */
  ghost predicate PurgedBetween(calls: seq<Call>, from: nat, n: nat)
    requires from < n <= |calls| && Locks(calls[from])
  {
    exists k :: from < k < n && Locks(calls[k]) && calls[k].now >= calls[from].ceremony.value.consentExpires
  }

  /** Call i accepted the consent, and nothing has purged that acceptance before position n. */
  ghost predicate Guards(calls: seq<Call>, i: nat, n: nat, consent: string)
    requires n <= |calls|
  {
    i < n && AcceptedFor(calls, i, consent) && !PurgedBetween(calls, i, n)
  }

  lemma GuardSurvives(calls: seq<Call>, i: nat, n: nat, consent: string)
    requires n < |calls| && Guards(calls, i, n, consent)
    ensures Guards(calls, i, n + 1, consent)
       <==> !(Locks(calls[n]) && calls[n].now >= calls[i].ceremony.value.consentExpires)
  {}

  /** The map holds a consent exactly when some acceptance of it has not been purged, and then that one's expiry. */
  lemma {:induction false} ClaimsAreUnpurgedAcceptances(calls: seq<Call>, n: nat, consent: string)
    requires n <= |calls|
    ensures consent in ClaimsAfter(calls, n) <==> exists i: nat :: Guards(calls, i, n, consent)
    ensures forall i: nat | Guards(calls, i, n, consent) ::
              && consent in ClaimsAfter(calls, n)
              && ClaimsAfter(calls, n)[consent] == calls[i].ceremony.value.consentExpires
  {
    if n > 0 {
      var c := calls[n - 1];
      ClaimsAreUnpurgedAcceptances(calls, n - 1, consent);
      forall i: nat | Guards(calls, i, n, consent)
        ensures consent in ClaimsAfter(calls, n)
        ensures ClaimsAfter(calls, n)[consent] == calls[i].ceremony.value.consentExpires
      {
        if i < n - 1 {
          assert !PurgedBetween(calls, i, n - 1);
          assert Guards(calls, i, n - 1, consent);
        }
      }
      if consent in ClaimsAfter(calls, n) {
        if AcceptedFor(calls, n - 1, consent) {
          assert Guards(calls, n - 1, n, consent);
        } else {
          var i: nat :| Guards(calls, i, n - 1, consent);
          GuardSurvives(calls, i, n - 1, consent);
        }
      }
    }
  }

  /** Call i accepted the consent of call j, and no purge up to and including j's own has dropped it. */
  ghost predicate Blocks(calls: seq<Call>, i: nat, j: nat)
    requires j < |calls| && Locks(calls[j])
  {
    i < j && Guards(calls, i, j + 1, calls[j].ceremony.value.consentRef)
  }

  /**
  The verdict of every call that reaches the lock, with no assumption on the
  clock: replay exactly when an earlier acceptance of the consent has survived
  every purge up to and including this call's own, accepted otherwise.
  */
  lemma VerdictExactly(calls: seq<Call>, j: nat)
    requires j < |calls| && Locks(calls[j])
    ensures VerdictAt(calls, j) == if exists i: nat :: Blocks(calls, i, j) then ConsentReplay else Accepted
  {
    var consent := calls[j].ceremony.value.consentRef;
    ClaimsAreUnpurgedAcceptances(calls, j, consent);
    forall i: nat | Blocks(calls, i, j)
      ensures VerdictAt(calls, j) == ConsentReplay
    {
      assert !PurgedBetween(calls, i, j);
      assert Guards(calls, i, j, consent);
      GuardSurvives(calls, i, j, consent);
    }
    if VerdictAt(calls, j) != Accepted {
      var i: nat :| Guards(calls, i, j, consent);
      GuardSurvives(calls, i, j, consent);
      assert Blocks(calls, i, j);
    }
  }

  /**
  Replay safety: a second acceptance needs a purge, after the first and up to
  the second, with a clock reading past the first's expiry.
  */
  lemma SecondAcceptanceNeedsPurge(calls: seq<Call>, i: nat, j: nat, consent: string)
    requires i < j < |calls| && AcceptedFor(calls, i, consent) && AcceptedFor(calls, j, consent)
    ensures PurgedBetween(calls, i, j + 1)
  {
    VerdictExactly(calls, j);
    if !PurgedBetween(calls, i, j + 1) {
      assert Blocks(calls, i, j);
    }
  }

  /** The guard never invents a replay: there is an earlier acceptance, unexpired by this call's own clock. */
  lemma ReplayHasUnexpiredAcceptance(calls: seq<Call>, j: nat) returns (i: nat)
    requires j < |calls| && VerdictAt(calls, j) == ConsentReplay
    ensures i < j && Locks(calls[j]) && AcceptedFor(calls, i, calls[j].ceremony.value.consentRef)
    ensures calls[i].ceremony.value.consentExpires > calls[j].now
  {
    VerdictExactly(calls, j);
    i :| Blocks(calls, i, j);
  }

  // ---------- against a guard that never forgets ----------

  /** The reference: remember every acceptance, refuse a consent with one that has not expired. */
  ghost function RememberedVerdict(calls: seq<Call>, j: nat): Verdict
    requires j < |calls|
    decreases j
  {
    if !Locks(calls[j]) then Precheck(calls[j]).value
    else if exists i: nat :: i < j && Unexpired(calls, i, j) && RememberedVerdict(calls, i) == Accepted then
      ConsentReplay
    else Accepted
  }

  /** Calls i and j present one consent, and i's expiry lies ahead of j's clock. */
  predicate Unexpired(calls: seq<Call>, i: nat, j: nat)
    requires i < |calls| && j < |calls| && Locks(calls[j])
  {
    && Locks(calls[i])
    && calls[i].ceremony.value.consentRef == calls[j].ceremony.value.consentRef
    && calls[i].ceremony.value.consentExpires > calls[j].now
  }

  ghost predicate Agree(calls: seq<Call>) {
    forall j: nat | j < |calls| :: VerdictAt(calls, j) == RememberedVerdict(calls, j)
  }

  /** What can be seen of a call from outside: whether it goes on to lock, and its clock reading. */
  datatype Timing = Timing(locks: bool, now: int)

  ghost predicate Follows(calls: seq<Call>, ts: seq<Timing>) {
    |calls| == |ts| && forall i | 0 <= i < |ts| :: Timing(Locks(calls[i]), calls[i].now) == ts[i]
  }

  /**
  The clock peaks at k between i and j: some expiry lies ahead of both their
  readings and not of k's. Expiry 0 means none, so it cannot be that one.
  */
  predicate PeakAt(ts: seq<Timing>, i: nat, k: nat, j: nat) {
    && i < k < j < |ts| && ts[i].locks && ts[k].locks && ts[j].locks
    && var expiry := PeakExpiry(ts[k].now); ts[i].now < expiry && ts[j].now < expiry
  }

  /** The latest expiry that a purge at this reading drops. */
  function PeakExpiry(now: int): int {
    if now == 0 then -1 else now
  }

  ghost predicate NoPeak(ts: seq<Timing>) {
    forall i: nat, k: nat, j: nat :: !PeakAt(ts, i, k, j)
  }

  /** Where the clock has no peak, purging changes no verdict. */
  lemma {:induction false} NoPeakIsInvisible(calls: seq<Call>, ts: seq<Timing>, j: nat)
    requires Follows(calls, ts) && NoPeak(ts) && j < |calls|
    ensures VerdictAt(calls, j) == RememberedVerdict(calls, j)
    decreases j
  {
    if Locks(calls[j]) {
      VerdictExactly(calls, j);
      forall i: nat | i < j
        ensures Unexpired(calls, i, j) && RememberedVerdict(calls, i) == Accepted <==> Blocks(calls, i, j)
      {
        NoPeakIsInvisible(calls, ts, i);
        if Locks(calls[i]) && calls[i].ceremony.value.consentRef == calls[j].ceremony.value.consentRef {
          UnexpiredIsUnpurged(calls, ts, i, j);
        }
      }
    }
  }

  /** Where the clock has no peak, an acceptance is purged by the time of a call exactly when it has expired for it. */
  lemma UnexpiredIsUnpurged(calls: seq<Call>, ts: seq<Timing>, i: nat, j: nat)
    requires Follows(calls, ts) && NoPeak(ts) && i < j < |calls| && Locks(calls[i]) && Locks(calls[j])
    ensures calls[i].ceremony.value.consentExpires <= calls[j].now <==> PurgedBetween(calls, i, j + 1)
  {
    var expires := calls[i].ceremony.value.consentExpires;
    assert ts[i] == Timing(true, calls[i].now) && ts[j] == Timing(true, calls[j].now);
    forall k | i < k < j + 1 && Locks(calls[k]) && calls[k].now >= expires
      ensures expires <= calls[j].now
    {
      assert ts[k] == Timing(true, calls[k].now);
      assert k < j ==> !PeakAt(ts, i, k, j);
    }
  }

  /** Clock readings follow lock order. */
  ghost predicate Monotone(calls: seq<Call>) {
    forall i, k | 0 <= i < k < |calls| && Locks(calls[i]) && Locks(calls[k]) :: calls[i].now <= calls[k].now
  }

  /** Purging never changes a verdict as long as the clock follows lock order. */
  lemma PurgingIsInvisible(calls: seq<Call>)
    requires Monotone(calls)
    ensures Agree(calls)
  {
    var ts := seq(|calls|, i requires 0 <= i < |calls| => Timing(Locks(calls[i]), calls[i].now));
    forall i: nat, k: nat, j: nat
      ensures !PeakAt(ts, i, k, j)
    {
      assert i < k < j < |ts| && ts[k].locks && ts[j].locks ==> calls[k].now <= calls[j].now;
    }
    forall j: nat | j < |calls| {
      NoPeakIsInvisible(calls, ts, j);
    }
  }

  // ---------- every peak can be felt ----------

  const CONSENT := "consent"
  const OTHER := "other"

  /** A ceremony that passes every check at a reading before its expiry. */
  function Plain(consentRef: string, consentExpires: int): Ceremony {
    Ceremony("device", consentRef, consentExpires, "uri", "proof")
  }

  /** Calls i and j present one consent with this expiry; all others keep out of the way. */
  function Presented(ts: seq<Timing>, i: nat, j: nat, expires: int, at: nat): Call
    requires at < |ts|
  {
    var now := ts[at].now;
    if !ts[at].locks then Call(None, now)
    else if at == i || at == j then Call(Some(Plain(CONSENT, expires)), now)
    else Call(Some(Plain(OTHER, if now == -1 then 1 else now + 1)), now)
  }

  function Presentation(ts: seq<Timing>, i: nat, j: nat, expires: int): (calls: seq<Call>)
    ensures |calls| == |ts| && forall at | 0 <= at < |ts| :: calls[at] == Presented(ts, i, j, expires, at)
  {
    seq(|ts|, at requires 0 <= at < |ts| => Presented(ts, i, j, expires, at))
  }

  /** At a peak the guard accepts a live consent twice, where one that never forgets would not. */
  lemma PeakForgets(ts: seq<Timing>, i: nat, k: nat, j: nat) returns (calls: seq<Call>)
    requires PeakAt(ts, i, k, j)
    ensures Follows(calls, ts)
    ensures VerdictAt(calls, i) == Accepted && VerdictAt(calls, j) == Accepted
    ensures RememberedVerdict(calls, j) == ConsentReplay
  {
    var expires := PeakExpiry(ts[k].now);
    calls := Presentation(ts, i, j, expires);
    assert !(REVOKED_SCHEME <= "proof");
    assert Locks(calls[i]) && Locks(calls[j]) && Locks(calls[k]);
    assert forall b: nat | b < j && b != i && Locks(calls[b]) :: calls[b].ceremony.value.consentRef == OTHER;
    VerdictExactly(calls, i);
    assert RememberedVerdict(calls, i) == Accepted;
    assert Unexpired(calls, i, j);
    assert PurgedBetween(calls, i, j + 1);
    VerdictExactly(calls, j);
  }

  /**
  The exact condition, on what can be known before any ceremony is presented:
  whatever is presented at these times, the guard agrees with one that never
  forgets, if and only if the clock readings have no peak.
  */
  lemma AgreesIffNoPeak(ts: seq<Timing>)
    ensures NoPeak(ts) <==> forall calls | Follows(calls, ts) :: Agree(calls)
  {
    if NoPeak(ts) {
      forall calls, j: nat | Follows(calls, ts) && j < |calls|
        ensures VerdictAt(calls, j) == RememberedVerdict(calls, j)
      {
        NoPeakIsInvisible(calls, ts, j);
      }
    } else {
      var i: nat, k: nat, j: nat :| PeakAt(ts, i, k, j);
      var calls := PeakForgets(ts, i, k, j);
      assert !Agree(calls);
    }
  }
}
