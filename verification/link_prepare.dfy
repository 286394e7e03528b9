/**
The link-prepare step: the replay guard first, the prepare resolver second,
with nothing that gives a consent back when the second half fails.
*/
module LinkPrepare {
  import opened Common
  import opened Refs
  import opened ReplayGuard
  import opened Registries

  datatype Outcome = Refused(verdict: Verdict) | Unresolved(error: Error) | Ready(prepared: Prepared)

  function Execute(claims: Claims, t: Tables, c: Call, q: Request): (Claims, Outcome) {
    var (next, verdict) := Validate(claims, c);
    if verdict != Accepted then (next, Refused(verdict))
    else
      var request := q.(consentRef := FirstNonEmpty(q.consentRef, c.ceremony.value.consentRef));
      match Prepare(t, request)
      case Err(e) => (next, Unresolved(e))
      case Ok(p) => (next, Ready(p))
  }

  /** The step over the live guard and registry. */
  method ExecuteStep(guard: CeremonyGuard, registry: Registry, ceremony: Option<Ceremony>, now: int, q: Request)
    returns (outcome: Outcome)
    modifies guard
    ensures (guard.claims, outcome) == Execute(old(guard.claims), registry.State(), Call(ceremony, now), q)
  {
    var verdict := guard.ValidateCeremony(ceremony, now);
    if verdict != Accepted {
      return Refused(verdict);
    }
    var request := q;
    if request.consentRef == "" {
      request := request.(consentRef := ceremony.value.consentRef);
    }
    var resolved := registry.ResolvePrepare(request);
    match resolved {
      case Err(e) => return Unresolved(e);
      case Ok(p) => return Ready(p);
    }
  }

  /** The request with the ceremony's consent where it brings none of its own; nothing else is changed. */
  function WithConsent(q: Request, consentRef: string): Request {
    if q.consentRef == "" then q.(consentRef := consentRef) else q
  }

  /**
  The step: refused with the guard's verdict, or else answered as the resolver
  answers the request with its consent filled in. A prepared link therefore
  carries the request's consent or the ceremony's, never the account's. The
  claims are the guard's whatever the resolver says.
  */
  lemma StepAnswers(claims: Claims, t: Tables, c: Call, q: Request)
    ensures var (after, outcome) := Execute(claims, t, c, q);
      var (guarded, verdict) := Validate(claims, c);
      && after == guarded
      && (verdict != Accepted ==> outcome == Refused(verdict))
      && (verdict == Accepted ==>
            && c.ceremony.Some?
            && var resolved := Prepare(t, WithConsent(q, c.ceremony.value.consentRef));
            && outcome == (if resolved.Ok? then Ready(resolved.value) else Unresolved(resolved.error))
            && (outcome.Ready? ==>
                  outcome.prepared.fields.consentRef
                    == if q.consentRef != "" then q.consentRef else c.ceremony.value.consentRef))
  {
    if Validate(claims, c).1 == Accepted {
      var consent := c.ceremony.value.consentRef;
      assert q.(consentRef := FirstNonEmpty(q.consentRef, consent)) == WithConsent(q, consent);
    }
  }

  function ValidateAll(claims: Claims, calls: seq<Call>): Claims
    decreases |calls|
  {
    if calls == [] then claims else ValidateAll(Validate(claims, calls[0]).0, calls[1..])
  }

  lemma {:induction false} ClaimOutlivesCalls(claims: Claims, calls: seq<Call>, consent: string)
    requires consent in claims
    requires forall c | c in calls && Locks(c) :: c.now < claims[consent]
    ensures consent in ValidateAll(claims, calls) && ValidateAll(claims, calls)[consent] == claims[consent]
    decreases |calls|
  {
    if calls != [] {
      var next := Validate(claims, calls[0]).0;
      assert consent in next && next[consent] == claims[consent];
      ClaimOutlivesCalls(next, calls[1..], consent);
    }
  }

  lemma {:induction false} LostClaimStaysLost(claims: Claims, calls: seq<Call>, consent: string)
    requires consent !in claims
    requires forall c | c in calls && Locks(c) :: c.ceremony.value.consentRef != consent
    ensures consent !in ValidateAll(claims, calls)
    decreases |calls|
  {
    if calls != [] {
      LostClaimStaysLost(Validate(claims, calls[0]).0, calls[1..], consent);
    }
  }

  /** A claim nobody presents again lasts exactly until some locking call reads a clock at or past its expiry. */
  lemma {:induction false} ClaimLastsIff(claims: Claims, calls: seq<Call>, consent: string)
    requires consent in claims
    requires forall c | c in calls && Locks(c) :: c.ceremony.value.consentRef != consent
    ensures consent in ValidateAll(claims, calls) <==> forall c | c in calls && Locks(c) :: c.now < claims[consent]
    decreases |calls|
  {
    if calls != [] {
      var next := Validate(claims, calls[0]).0;
      assert calls[0] in calls && forall c :: c in calls <==> c == calls[0] || c in calls[1..];
      if consent in next {
        ClaimLastsIff(next, calls[1..], consent);
      } else {
        LostClaimStaysLost(next, calls[1..], consent);
      }
    }
  }

  /**
  A consent is spent even when the prepare half fails: until some clock reading
  reaches its expiry, every retry is refused as a replay, whatever has been
  registered meanwhile.
  */
  lemma FailedPrepareSpendsConsent(claims: Claims, t: Tables, c: Call, q: Request, between: seq<Call>, u: Tables,
                                   retry: Call, r: Request)
    requires Execute(claims, t, c, q).1.Unresolved?
    requires Locks(retry) && retry.ceremony.value.consentRef == c.ceremony.value.consentRef
    requires retry.now < c.ceremony.value.consentExpires
    requires forall x | x in between && Locks(x) :: x.now < c.ceremony.value.consentExpires
    ensures Execute(ValidateAll(Execute(claims, t, c, q).0, between), u, retry, r).1 == Refused(ConsentReplay)
  {
    var consent := c.ceremony.value.consentRef;
    var spent := Execute(claims, t, c, q).0;
    assert spent[consent] == c.ceremony.value.consentExpires;
    ClaimOutlivesCalls(spent, between, consent);
  }

  /**
  Exactly how long: when nobody else presents the consent, a retry after a
  failed prepare is refused if and only if no clock reading since, the retry's
  own included, has reached the expiry.
  */
  lemma RetryRefusedIffUnexpired(claims: Claims, t: Tables, c: Call, q: Request, between: seq<Call>, u: Tables,
                                 retry: Call, r: Request)
    requires Execute(claims, t, c, q).1.Unresolved?
    requires Locks(retry) && retry.ceremony.value.consentRef == c.ceremony.value.consentRef
    requires forall x | x in between && Locks(x) :: x.ceremony.value.consentRef != c.ceremony.value.consentRef
    ensures Execute(ValidateAll(Execute(claims, t, c, q).0, between), u, retry, r).1 == Refused(ConsentReplay)
       <==> (retry.now < c.ceremony.value.consentExpires
             && forall x | x in between && Locks(x) :: x.now < c.ceremony.value.consentExpires)
  {
    var consent := c.ceremony.value.consentRef;
    var spent := Execute(claims, t, c, q).0;
    assert spent[consent] == c.ceremony.value.consentExpires;
    ClaimLastsIff(spent, between, consent);
    if forall x | x in between && Locks(x) :: x.now < c.ceremony.value.consentExpires {
      ClaimOutlivesCalls(spent, between, consent);
    }
  }
}
