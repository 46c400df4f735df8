/** The capability-token table that gates the secret catalog: issue on the
    right password, read-only validation, single-use consumption by the index
    page, explicit invalidation and the periodic sweep. A token is held either
    as a record (deadline for first use, time of first use) or in the legacy
    form of a bare number, where -1 marks a consumed token. */
module Tokens {
  import opened Text

  /** Seconds a freshly issued token may wait for its first use. */
  const ISSUE_LIFETIME := 300
  /** Seconds a consumed token stays valid for re-validation (TOKEN_USED_CLEANUP_TIME). */
  const USED_GRACE := 3600

  datatype TokenInfo =
    | Rec(expire: int, used: Option<int>)
    | Legacy(stamp: int)

  type TokenMap = map<string, TokenInfo>

  /** `is_token_valid` on a token that is present. */
  predicate InfoValid(info: TokenInfo, now: int)
  {
    match info
    case Legacy(ts) => ts == -1 || ts > now
    case Rec(e, None) => e > now
    case Rec(_, Some(u)) => now <= u + USED_GRACE
  }

  /** `is_token_valid(id)` at time `now`: read-only. */
  predicate TokenValid(m: TokenMap, id: string, now: int)
  {
    id != "" && id in m && InfoValid(m[id], now)
  }

  /** The condition under which `clean_expired_tokens` deletes an entry. */
  predicate Expired(info: TokenInfo, now: int)
  {
    match info
    case Legacy(ts) => ts > 0 && now > ts
    case Rec(e, None) => e > 0 && now > e
    case Rec(_, Some(u)) => now > u + USED_GRACE
  }

  /** A token that a consume rejects as already used. */
  predicate Spent(info: TokenInfo)
  {
    match info
    case Legacy(ts) => ts <= 0
    case Rec(_, u) => u.Some?
  }

  function ExpiredIds(m: TokenMap, now: int): set<string>
  {
    set k | k in m && Expired(m[k], now)
  }

  /** The table after `clean_expired_tokens` at time `now`. */
  function Swept(m: TokenMap, now: int): (r: TokenMap)
    ensures r.Keys == m.Keys - ExpiredIds(m, now)
    ensures forall k :: k in r ==> r[k] == m[k]
  {
    map k | k in m && !Expired(m[k], now) :: m[k]
  }

  /** The table after `verify_secret` with the fresh identifier `id`. */
  function Issued(m: TokenMap, id: string, passwordOk: bool, now: int): TokenMap
  {
    if passwordOk then m[id := Rec(now + ISSUE_LIFETIME, None)] else m
  }

  /** The table after `invalidate_token`. */
  function Invalidated(m: TokenMap, id: string): TokenMap
  {
    if id != "" && id in m then m - {id} else m
  }

  /** How the index page treats its `secretnumber` argument. */
  datatype Outcome =
    | NotRequested   // empty argument: ordinary mode, no sweep
    | Consumed       // first use: secret mode
    | AlreadyUsed    // "cannot be reused"
    | Unknown        // absent after the sweep: "link has expired"

  /** The consume branch of the index page: sweep, then consume or reject. */
  function Consumption(m: TokenMap, id: string, now: int): (TokenMap, Outcome)
  {
    if id == "" then (m, NotRequested)
    else
      var s := Swept(m, now);
      if id !in s then (s, Unknown)
      else match s[id]
        case Legacy(ts) => if ts > 0 then (s[id := Legacy(-1)], Consumed) else (s, AlreadyUsed)
        case Rec(e, u) => if u.None? then (s[id := Rec(e, Some(now))], Consumed) else (s, AlreadyUsed)
  }

  class TokenStore {
    var tokens: TokenMap

    constructor ()
      ensures tokens == map[]
    {
      tokens := map[];
    }

    /** `verify_secret`: `id` stands for the random `token_urlsafe(32)`. */
    method Issue(password: string, secret: string, id: string, now: int)
      returns (success: bool, token: Option<string>)
      modifies this
      ensures success == (password == secret)
      ensures token == if success then Some(id) else None
      ensures tokens == Issued(old(tokens), id, success, now)
    {
      if password == secret {
        tokens := tokens[id := Rec(now + ISSUE_LIFETIME, None)];
        success, token := true, Some(id);
      } else {
        success, token := false, None;
      }
    }

    /** `clean_expired_tokens`: collect the expired identifiers, then delete them. */
    method Sweep(now: int) returns (removed: nat)
      modifies this
      ensures tokens == Swept(old(tokens), now)
      ensures removed == |ExpiredIds(old(tokens), now)|
    {
      var expired: set<string> := {};
      var pending := tokens.Keys;
      while pending != {}
        invariant pending <= tokens.Keys
        invariant forall k :: k in expired <==> k in tokens && k !in pending && Expired(tokens[k], now)
        decreases pending
      {
        var k :| k in pending;
        if Expired(tokens[k], now) {
          expired := expired + {k};
        }
        pending := pending - {k};
      }
      assert expired == ExpiredIds(tokens, now);
      ghost var before := tokens;
      var doomed := expired;
      while doomed != {}
        invariant doomed <= expired
        invariant tokens == before - (expired - doomed)
        decreases doomed
      {
        var k :| k in doomed;
        tokens := tokens - {k};
        doomed := doomed - {k};
      }
      assert tokens == Swept(before, now);
      removed := |expired|;
    }

    /** The consume branch of the index page for the argument `id`. */
    method Consume(id: string, now: int) returns (outcome: Outcome)
      modifies this
      ensures (tokens, outcome) == Consumption(old(tokens), id, now)
    {
      if id == "" {
        return NotRequested;
      }
      var _ := Sweep(now);
      if id in tokens {
        match tokens[id]
        case Legacy(ts) =>
          if ts > 0 {
            tokens := tokens[id := Legacy(-1)];
            outcome := Consumed;
          } else {
            outcome := AlreadyUsed;
          }
        case Rec(e, u) =>
          if u.None? {
            tokens := tokens[id := Rec(e, Some(now))];
            outcome := Consumed;
          } else {
            outcome := AlreadyUsed;
          }
      } else {
        outcome := Unknown;
      }
    }

    /** `invalidate_token`: always answers 204. */
    method Invalidate(id: string) returns (status: nat)
      modifies this
      ensures status == 204
      ensures tokens == Invalidated(old(tokens), id)
    {
      if id != "" && id in tokens {
        tokens := tokens - {id};
      }
      status := 204;
    }
  }

  /** The five validity cases, all decided at the same `now`. */
  lemma ValidityCases(m: TokenMap, id: string, now: int)
    ensures id == "" || id !in m ==> !TokenValid(m, id, now)
    ensures id != "" && id in m && m[id].Rec? && m[id].used.None? ==>
              (TokenValid(m, id, now) <==> m[id].expire > now)
    ensures id != "" && id in m && m[id].Rec? && m[id].used.Some? ==>
              (TokenValid(m, id, now) <==> now <= m[id].used.value + USED_GRACE)
    ensures id != "" && id in m && m[id] == Legacy(-1) ==> TokenValid(m, id, now)
    ensures id != "" && id in m && m[id].Legacy? && m[id].stamp != -1 ==>
              (TokenValid(m, id, now) <==> m[id].stamp > now)
  {
  }

  /** The sweep never removes a token that is valid at the same instant, so
      validation gives the same answer before and after it. */
  lemma SweepKeepsValidity(m: TokenMap, id: string, now: int)
    ensures TokenValid(Swept(m, now), id, now) == TokenValid(m, id, now)
    ensures id in m && m[id] == Legacy(-1) ==> id in Swept(m, now)
  {
  }

  /** The sweep removes exactly the expired entries and changes no other. */
  lemma SweepRemovesExactly(m: TokenMap, now: int, k: string)
    ensures k in Swept(m, now) <==> k in m && !Expired(m[k], now)
    ensures k in Swept(m, now) ==> Swept(m, now)[k] == m[k]
    ensures |Swept(m, now)| == |m| - |ExpiredIds(m, now)|
  {
    assert Swept(m, now).Keys == m.Keys - ExpiredIds(m, now);
    assert ExpiredIds(m, now) <= m.Keys;
  }

  /** The right password adds one new unused record; a wrong one changes nothing. */
  lemma IssueAddsOne(m: TokenMap, id: string, ok: bool, now: int)
    requires id !in m
    ensures ok ==> |Issued(m, id, ok, now)| == |m| + 1
    ensures ok ==> Issued(m, id, ok, now)[id] == Rec(now + 300, None)
    ensures ok ==> forall k :: k in m ==> k in Issued(m, id, ok, now) && Issued(m, id, ok, now)[k] == m[k]
    ensures !ok ==> Issued(m, id, ok, now) == m
  {
  }

  /** Invalidation deletes the identifier, is idempotent and touches nothing else. */
  lemma InvalidateIdempotent(m: TokenMap, id: string)
    ensures Invalidated(Invalidated(m, id), id) == Invalidated(m, id)
    ensures id != "" ==> id !in Invalidated(m, id)
    ensures forall k :: k != id && k in m ==> k in Invalidated(m, id) && Invalidated(m, id)[k] == m[k]
  {
  }

  /** A token issued at `t` and presented at `t1 <= t + 300` is consumed; any
      later presentation is rejected: as already used within the hour after
      the first use, as unknown once the sweep has dropped it. Meanwhile it
      validates exactly until the hour has passed. */
  lemma IssueThenConsume(m: TokenMap, id: string, t: int, t1: int, t2: int)
    requires id != ""
    requires t <= t1 <= t + ISSUE_LIFETIME && t1 <= t2
    ensures var (m1, o1) := Consumption(Issued(m, id, true, t), id, t1);
            && o1 == Consumed
            && m1[id] == Rec(t + ISSUE_LIFETIME, Some(t1))
            && (TokenValid(m1, id, t2) <==> t2 <= t1 + USED_GRACE)
            && Consumption(m1, id, t2).1 == (if t2 > t1 + USED_GRACE then Unknown else AlreadyUsed)
  {
    var m0 := Issued(m, id, true, t);
    assert !Expired(m0[id], t1);
    var s := Swept(m0, t1);
    assert id in s && s[id] == Rec(t + ISSUE_LIFETIME, None);
    var m1 := s[id := Rec(t + ISSUE_LIFETIME, Some(t1))];
    assert Consumption(m0, id, t1) == (m1, Consumed);
    if t2 > t1 + USED_GRACE {
      assert id !in Swept(m1, t2);
    } else {
      assert id in Swept(m1, t2);
    }
  }

  /** Consume never looks at the deadline itself and the sweep deletes only
      when `now > expire`: at `now == expire` an unused record is already
      invalid for validation, yet its consumption still succeeds. */
  lemma ConsumeAtDeadline(m: TokenMap, id: string, e: int)
    requires id != "" && id in m && m[id] == Rec(e, None)
    ensures !TokenValid(m, id, e)
    ensures Consumption(m, id, e).1 == Consumed
  {
    assert id in Swept(m, e);
  }

  /** Consuming a legacy number: positive turns into -1 with success, the rest is rejected. */
  lemma LegacyConsume(m: TokenMap, id: string, ts: int, now: int)
    requires id != "" && id in m && m[id] == Legacy(ts)
    requires !Expired(Legacy(ts), now)
    ensures ts > 0 ==> Consumption(m, id, now).1 == Consumed && Consumption(m, id, now).0[id] == Legacy(-1)
    ensures ts <= 0 ==> Consumption(m, id, now).1 == AlreadyUsed
  {
    assert id in Swept(m, now);
  }

  // ---------------------------------------------------------------------------
  // Single use over any sequence of operations

  /** One state-changing request against the token table. */
  datatype Op =
    | IssueOp(id: string, passwordOk: bool, at: int)
    | ConsumeOp(id: string, at: int)
    | InvalidateOp(id: string)
    | SweepOp(at: int)

  function Apply(m: TokenMap, op: Op): (r: TokenMap)
    ensures op.IssueOp? ==> r.Keys <= m.Keys + {op.id}
    ensures !op.IssueOp? ==> r.Keys <= m.Keys
  {
    match op
    case IssueOp(id, ok, t) => Issued(m, id, ok, t)
    case ConsumeOp(id, t) => Consumption(m, id, t).0
    case InvalidateOp(id) => Invalidated(m, id)
    case SweepOp(t) => Swept(m, t)
  }

  /** The number of successful first consumptions of `x` along `ops`. */
  function Successes(m: TokenMap, ops: seq<Op>, x: string): nat
    decreases |ops|
  {
    if ops == [] then 0
    else
      var hit := ops[0].ConsumeOp? && ops[0].id == x && Consumption(m, x, ops[0].at).1 == Consumed;
      (if hit then 1 else 0) + Successes(Apply(m, ops[0]), ops[1..], x)
  }

  /** Every issued identifier is new: absent from the table at the start and
      not issued before (the random `token_urlsafe(32)` never repeats). */
  predicate FreshIssues(m: TokenMap, ops: seq<Op>)
  {
    forall i :: 0 <= i < |ops| && ops[i].IssueOp? ==>
      && ops[i].id !in m
      && forall j :: 0 <= j < i ==> !(ops[j].IssueOp? && ops[j].id == ops[i].id)
  }

  lemma {:induction false} SpentStaysSpent(m: TokenMap, ops: seq<Op>, x: string)
    requires x in m ==> Spent(m[x])
    requires forall i :: 0 <= i < |ops| && ops[i].IssueOp? ==> ops[i].id != x
    ensures Successes(m, ops, x) == 0
    decreases |ops|
  {
    if ops != [] {
      var m' := Apply(m, ops[0]);
      if ops[0].ConsumeOp? && ops[0].id == x {
        assert x in Swept(m, ops[0].at) ==> Swept(m, ops[0].at)[x] == m[x];
      }
      assert x in m' ==> Spent(m'[x]);
      SpentStaysSpent(m', ops[1..], x);
    }
  }

  /** A token is consumed successfully at most once, whatever the requests
      around it, provided issued identifiers are never reused. */
  lemma {:induction false} AtMostOneSuccess(m: TokenMap, ops: seq<Op>, x: string)
    requires FreshIssues(m, ops)
    ensures Successes(m, ops, x) <= 1
    decreases |ops|
  {
    if ops != [] {
      var m' := Apply(m, ops[0]);
      assert FreshIssues(m', ops[1..]) by {
        forall i | 0 <= i < |ops[1..]| && ops[1..][i].IssueOp?
          ensures ops[1..][i].id !in m'
        {
          assert ops[i + 1].id !in m;
          assert !(ops[0].IssueOp? && ops[0].id == ops[i + 1].id);
        }
      }
      if ops[0].ConsumeOp? && ops[0].id == x && Consumption(m, x, ops[0].at).1 == Consumed {
        assert x in m;
        assert Spent(m'[x]);
        forall i | 0 <= i < |ops[1..]| && ops[1..][i].IssueOp?
          ensures ops[1..][i].id != x
        {
          assert ops[i + 1].id !in m;
        }
        SpentStaysSpent(m', ops[1..], x);
      } else {
        AtMostOneSuccess(m', ops[1..], x);
      }
    }
  }
}
