/** The background maintenance cycle and the listing route, which tie the
    registry, the token table and the listing caches together. */
module Server {
  import opened Tokens
  import opened Connections
  import opened Catalog

  /** Seconds to sleep after a cycle that began with `count` tracked clients:
      busier registries are swept more often. */
  function NextInterval(count: nat): (seconds: nat)
    ensures seconds == 30 || seconds == 60 || seconds == 120 || seconds == 300
    ensures count > 50 <==> seconds == 30
    ensures count == 0 <==> seconds == 300
  {
    if count > 50 then 30
    else if count > 10 then 60
    else if count > 0 then 120
    else 300
  }

  /** A larger registry never waits longer. */
  lemma IntervalNonIncreasing(a: nat, b: nat)
    requires a <= b
    ensures 0 < NextInterval(b) <= NextInterval(a)
  {
  }

  /** One pass of the maintenance loop at time `now`: count the clients,
      expire the silent ones, sweep the token table, and choose the pause. */
  method MaintenanceCycle(registry: Registry, store: TokenStore, now: int)
    returns (seconds: nat, cleanedTokens: nat)
    requires registry.Valid()
    modifies registry, store
    ensures registry.Valid()
    ensures registry.entries == Without(old(registry.entries), Stale(old(registry.entries), now))
    ensures store.tokens == Swept(old(store.tokens), now)
    ensures cleanedTokens == |ExpiredIds(old(store.tokens), now)|
    ensures seconds == NextInterval(|old(registry.entries)|)
  {
    var count := |registry.entries|;
    registry.ExpireInactive(now);
    cleanedTokens := store.Sweep(now);
    seconds := NextInterval(count);
  }

  /** The `/videos` route: a valid token selects the secret folder's listing. */
  method Videos(store: TokenStore, library: Library, token: string, now: int,
                rootExists: bool, walk: seq<Found>) returns (result: seq<string>)
    requires library.Valid()
    modifies library.normal, library.secret
    ensures library.Valid()
    ensures var c := if TokenValid(store.tokens, token, now) then library.secret else library.normal;
      if old(c.Fresh(false, now)) then result == old(c.files) && c.files == old(c.files) && c.lastUpdate == old(c.lastUpdate)
      else result == (if rootExists then Listing(walk) else []) && c.files == result && c.lastUpdate == now
    ensures TokenValid(store.tokens, token, now) ==>
              library.normal.files == old(library.normal.files) && library.normal.lastUpdate == old(library.normal.lastUpdate)
    ensures !TokenValid(store.tokens, token, now) ==>
              library.secret.files == old(library.secret.files) && library.secret.lastUpdate == old(library.secret.lastUpdate)
  {
    var isSecret := TokenValid(store.tokens, token, now);
    result := library.VideoList(isSecret, false, now, rootExists, walk);
  }
}
