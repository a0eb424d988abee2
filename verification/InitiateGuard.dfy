/**
 vm1's admission of INITIATE messages: the freshness checks of `verify_initiate` and the
 pruned replay cache of `orchestrator/mod.rs`, in the order `main.rs` applies them.
 */
module InitiateGuard {
  import opened Prelude

  const INITIATE_MAX_AGE_SECS := 300
  const MAX_SKEW_SECS := 10
  const AUTH_ID_BYTES := 32

  datatype Payload = Payload(
    version: nat,
    authorizationId: Bytes,
    timestamp: nat,
    sessionTtlSecs: nat,
    operatorHash: Bytes,
    vm0AkPublic: Bytes)

  datatype Rejection =
    | UnsupportedVersion(version: nat)
    | TimestampInFuture(skewSecs: nat)
    | TimestampExpired(ageSecs: nat)
    | InvalidSessionTtl
    | MalformedPayload
    | AkPublicMismatch
    | InvalidSignature

  predicate TimestampFresh(timestamp: nat, now: nat) {
    if timestamp > now then timestamp - now <= MAX_SKEW_SECS else now - timestamp <= INITIATE_MAX_AGE_SECS
  }

  /**
   `verify_initiate`: the checks in their order; `signature` is what the TPM library says of
   the signature, `Err` when it cannot check it.
   */
  function VerifyInitiate(p: Payload, expectedAk: Option<Bytes>, signature: Result<bool>, now: nat)
    : (rejection: Option<Rejection>)
    ensures rejection.None? <==>
              && p.version == 1 && p.timestamp <= now + 10 && now <= p.timestamp + 300
              && 60 <= p.sessionTtlSecs <= 1200
              && |p.authorizationId| == 32 && |p.operatorHash| == 32
              && (expectedAk.Some? ==> p.vm0AkPublic == expectedAk.value) && signature == Ok(true)
  {
    if p.version != 1 then Some(UnsupportedVersion(p.version))
    else if p.timestamp > now && p.timestamp - now > MAX_SKEW_SECS then Some(TimestampInFuture(p.timestamp - now))
    else if p.timestamp <= now && now - p.timestamp > INITIATE_MAX_AGE_SECS then
      Some(TimestampExpired(now - p.timestamp))
    else if p.sessionTtlSecs < 60 || p.sessionTtlSecs > 1200 then Some(InvalidSessionTtl)
    else if |p.authorizationId| != AUTH_ID_BYTES then Some(MalformedPayload)
    else if |p.operatorHash| != 32 then Some(MalformedPayload)
    else if expectedAk.Some? && p.vm0AkPublic != expectedAk.value then Some(AkPublicMismatch)
    else if signature.Err? then Some(MalformedPayload)
    else if !signature.value then Some(InvalidSignature)
    else None
  }

  // --- replay cache ---

  type Cache = map<Bytes, nat>

  function SaturatingSub(a: nat, b: nat): nat {
    if a < b then 0 else a - b
  }

  function Pruned(seen: Cache, now: nat): Cache {
    map id | id in seen && SaturatingSub(now, seen[id]) <= INITIATE_MAX_AGE_SECS :: seen[id]
  }

  /** The cache after `check_and_record`, whose answer is whether the id was absent after pruning. */
  function Recorded(seen: Cache, id: Bytes, now: nat): Cache {
    if id in Pruned(seen, now) then Pruned(seen, now) else Pruned(seen, now)[id := now]
  }

  class ReplayCache {
    var seen: Cache

    constructor ()
      ensures seen == map[]
    {
      seen := map[];
    }

    method Prune(now: nat)
      modifies this
      ensures seen == Pruned(old(seen), now)
    {
      seen := map id | id in seen && SaturatingSub(now, seen[id]) <= INITIATE_MAX_AGE_SECS :: seen[id];
    }

    method CheckAndRecord(authId: Bytes, now: nat) returns (isNew: bool)
      modifies this
      ensures isNew <==> authId !in Pruned(old(seen), now)
      ensures seen == Recorded(old(seen), authId, now)
    {
      Prune(now);
      if authId in seen {
        return false;
      }
      seen := seen[authId := now];
      isNew := true;
    }
  }

  // --- runs of INITIATE messages ---

  /** A message, what the TPM says of its signature, and the clock when it is verified and when the cache is asked. */
  datatype Attempt = Attempt(payload: Payload, signature: Result<bool>, verifiedAt: nat, checkedAt: nat)

  predicate Verified(ak: Option<Bytes>, a: Attempt) {
    VerifyInitiate(a.payload, ak, a.signature, a.verifiedAt).None?
  }

  predicate Accepted(ak: Option<Bytes>, a: Attempt, seen: Cache) {
    Verified(ak, a) && a.payload.authorizationId !in Pruned(seen, a.checkedAt)
  }

  /** Only a verified message reaches the cache. */
  function CacheAfter(ak: Option<Bytes>, a: Attempt, seen: Cache): Cache {
    if Verified(ak, a) then Recorded(seen, a.payload.authorizationId, a.checkedAt) else seen
  }

  /** The admission part of `handle_initiate_connection`. */
  method AdmitInitiate(cache: ReplayCache, ak: Option<Bytes>, a: Attempt) returns (admitted: bool)
    modifies cache
    ensures admitted <==> Accepted(ak, a, old(cache.seen))
    ensures cache.seen == CacheAfter(ak, a, old(cache.seen))
  {
    if VerifyInitiate(a.payload, ak, a.signature, a.verifiedAt).Some? {
      return false;
    }
    admitted := cache.CheckAndRecord(a.payload.authorizationId, a.checkedAt);
  }

  /** A clock that never goes back, and the cache carried from message to message. */
  ghost predicate Run(ak: Option<Bytes>, attempts: seq<Attempt>, caches: seq<Cache>) {
    && |caches| == |attempts| + 1 && caches[0] == map[]
    && (forall i :: 0 <= i < |attempts| ==>
          && attempts[i].verifiedAt <= attempts[i].checkedAt
          && caches[i + 1] == CacheAfter(ak, attempts[i], caches[i]))
    && forall i, j :: 0 <= i < j < |attempts| ==> attempts[i].checkedAt <= attempts[j].verifiedAt
  }

  /** Message `j` was accepted and carried this id. */
  ghost predicate AcceptedId(ak: Option<Bytes>, attempts: seq<Attempt>, caches: seq<Cache>, j: nat, id: Bytes)
    requires j < |attempts| && |caches| == |attempts| + 1
  {
    Accepted(ak, attempts[j], caches[j]) && attempts[j].payload.authorizationId == id
  }

  /** Every cache entry is the time of some acceptance of its id. */
  ghost predicate Sound(ak: Option<Bytes>, attempts: seq<Attempt>, caches: seq<Cache>, n: nat)
    requires Run(ak, attempts, caches) && n <= |attempts|
  {
    forall id :: id in caches[n] ==>
      exists j :: 0 <= j < n && AcceptedId(ak, attempts, caches, j, id) && attempts[j].checkedAt == caches[n][id]
  }

  /** Every acceptance is still in the cache, or had left the window by the `n`-th message. */
  ghost predicate Complete(ak: Option<Bytes>, attempts: seq<Attempt>, caches: seq<Cache>, n: nat)
    requires Run(ak, attempts, caches) && n <= |attempts|
  {
    forall j, id :: 0 <= j < n && AcceptedId(ak, attempts, caches, j, id) ==>
      || (id in caches[n] && caches[n][id] >= attempts[j].checkedAt)
      || attempts[n - 1].checkedAt - attempts[j].checkedAt > INITIATE_MAX_AGE_SECS
  }

  lemma {:induction false} CacheIsSound(ak: Option<Bytes>, attempts: seq<Attempt>, caches: seq<Cache>, n: nat)
    requires Run(ak, attempts, caches) && n <= |attempts|
    ensures Sound(ak, attempts, caches, n)
  {
    if n > 0 {
      CacheIsSound(ak, attempts, caches, n - 1);
      forall id | id in caches[n]
        ensures exists j ::
                  0 <= j < n && AcceptedId(ak, attempts, caches, j, id) && attempts[j].checkedAt == caches[n][id]
      {
        if id !in caches[n - 1] || caches[n][id] != caches[n - 1][id] {
          assert AcceptedId(ak, attempts, caches, n - 1, id);
        }
      }
    }
  }

  lemma {:induction false} CacheIsComplete(ak: Option<Bytes>, attempts: seq<Attempt>, caches: seq<Cache>, n: nat)
    requires Run(ak, attempts, caches) && n <= |attempts|
    ensures Complete(ak, attempts, caches, n)
  {
    if n > 0 {
      CacheIsComplete(ak, attempts, caches, n - 1);
      assert n > 1 ==> attempts[n - 2].checkedAt <= attempts[n - 1].verifiedAt;
    }
  }

  /**
   The pruned cache answers as the whole history would: a verified message is accepted
   exactly when no acceptance of its id lies within the window before it.
   */
  lemma PrunedCacheAgreesWithHistory(ak: Option<Bytes>, attempts: seq<Attempt>, caches: seq<Cache>, i: nat)
    requires Run(ak, attempts, caches) && i < |attempts|
    ensures Accepted(ak, attempts[i], caches[i]) <==>
              && Verified(ak, attempts[i])
              && forall j :: 0 <= j < i && AcceptedId(ak, attempts, caches, j, attempts[i].payload.authorizationId) ==>
                   attempts[i].checkedAt - attempts[j].checkedAt > 300
  {
    var a, id := attempts[i], attempts[i].payload.authorizationId;
    CacheIsSound(ak, attempts, caches, i);
    CacheIsComplete(ak, attempts, caches, i);
    assert forall j :: 0 <= j < i ==> attempts[j].checkedAt <= a.verifiedAt;
    if id in Pruned(caches[i], a.checkedAt) {
      var j :| 0 <= j < i && AcceptedId(ak, attempts, caches, j, id) && attempts[j].checkedAt == caches[i][id];
    }
  }

  /**
   Accepting one payload twice takes more time between the two clock readings of the second
   message than the payload had been old when first recorded.
   */
  lemma SecondAcceptanceNeedsDelay(ak: Option<Bytes>, attempts: seq<Attempt>, caches: seq<Cache>, i: nat, j: nat)
    requires Run(ak, attempts, caches) && i < j < |attempts| && attempts[i].payload == attempts[j].payload
    requires Accepted(ak, attempts[i], caches[i]) && Accepted(ak, attempts[j], caches[j])
    ensures attempts[j].checkedAt - attempts[i].checkedAt > 300
    ensures attempts[j].checkedAt - attempts[j].verifiedAt
            > attempts[i].checkedAt - attempts[i].payload.timestamp
  {
    PrunedCacheAgreesWithHistory(ak, attempts, caches, j);
    assert AcceptedId(ak, attempts, caches, i, attempts[j].payload.authorizationId);
  }

  /** With one clock reading per message, a payload not dated ahead is accepted at most once. */
  lemma AcceptedAtMostOnce(ak: Option<Bytes>, attempts: seq<Attempt>, caches: seq<Cache>, i: nat, j: nat)
    requires Run(ak, attempts, caches) && i < j < |attempts| && attempts[i].payload == attempts[j].payload
    requires attempts[j].verifiedAt == attempts[j].checkedAt
    requires Accepted(ak, attempts[i], caches[i]) && attempts[i].payload.timestamp <= attempts[i].checkedAt
    ensures !Accepted(ak, attempts[j], caches[j])
  {
    if Accepted(ak, attempts[j], caches[j]) {
      SecondAcceptanceNeedsDelay(ak, attempts, caches, i, j);
    }
  }

  /** In this run the payload accepted at `i` is accepted again at `j`, with at most `delay` between its readings. */
  ghost predicate Replayed(ak: Option<Bytes>, attempts: seq<Attempt>, caches: seq<Cache>, i: nat, j: nat, delay: nat) {
    && Run(ak, attempts, caches) && i < j < |attempts|
    && attempts[j].payload == attempts[i].payload
    && attempts[j].checkedAt <= attempts[j].verifiedAt + delay
    && Accepted(ak, attempts[i], caches[i]) && Accepted(ak, attempts[j], caches[j])
  }

  /** Some continuation of the run accepts the payload of its attempt `i` again. */
  ghost predicate Replayable(ak: Option<Bytes>, attempts: seq<Attempt>, i: nat, delay: nat) {
    exists all: seq<Attempt>, caches: seq<Cache>, j: nat ::
      attempts <= all && Replayed(ak, all, caches, i, j, delay)
  }

  /** The next message that replays the last one at the latest moment it is fresh. */
  lemma ReplayAtTheLastMoment(ak: Option<Bytes>, attempts: seq<Attempt>, caches: seq<Cache>, delay: nat)
    returns (again: Attempt)
    requires Run(ak, attempts, caches) && attempts != []
    requires Accepted(ak, attempts[|attempts| - 1], caches[|attempts| - 1])
    requires var last := attempts[|attempts| - 1];
             && last.payload.timestamp + delay > last.checkedAt
             && last.checkedAt <= last.payload.timestamp + 300
    ensures var all, allCaches := attempts + [again], caches + [CacheAfter(ak, again, caches[|attempts|])];
            Replayed(ak, all, allCaches, |attempts| - 1, |attempts|, delay)
  {
    var n := |attempts|;
    var last := attempts[n - 1];
    var v := last.payload.timestamp + 300;
    again := Attempt(last.payload, last.signature, v, v + delay);
    assert caches[n] == CacheAfter(ak, last, caches[n - 1]);
    assert forall i :: 0 <= i < n ==> attempts[i].checkedAt <= last.checkedAt by {
      forall i | 0 <= i < n
        ensures attempts[i].checkedAt <= last.checkedAt
      {
        assert i < n - 1 ==> attempts[i].checkedAt <= attempts[n - 1].verifiedAt;
      }
    }
  }

  /**
   Exactly which payloads can be accepted again, when at most `delay` seconds separate the two
   readings of a message: those dated later than `delay` before they were recorded, and recorded
   while still fresh. With one reading per message: exactly those dated ahead.
   */
  lemma ReplayableExactlyIf(ak: Option<Bytes>, attempts: seq<Attempt>, caches: seq<Cache>, delay: nat)
    requires Run(ak, attempts, caches) && attempts != []
    requires Accepted(ak, attempts[|attempts| - 1], caches[|attempts| - 1])
    ensures var last := attempts[|attempts| - 1];
            && (Replayable(ak, attempts, |attempts| - 1, delay) <==>
                && last.payload.timestamp + delay > last.checkedAt
                && last.checkedAt <= last.payload.timestamp + 300)
            && (Replayable(ak, attempts, |attempts| - 1, 0) <==> last.payload.timestamp > last.checkedAt)
  {
    ReplayableIff(ak, attempts, caches, delay);
    ReplayableIff(ak, attempts, caches, 0);
  }

  lemma ReplayableIff(ak: Option<Bytes>, attempts: seq<Attempt>, caches: seq<Cache>, delay: nat)
    requires Run(ak, attempts, caches) && attempts != []
    requires Accepted(ak, attempts[|attempts| - 1], caches[|attempts| - 1])
    ensures var last := attempts[|attempts| - 1];
            Replayable(ak, attempts, |attempts| - 1, delay) <==>
              && last.payload.timestamp + delay > last.checkedAt
              && last.checkedAt <= last.payload.timestamp + 300
  {
    var i := |attempts| - 1;
    var last := attempts[i];
    if Replayable(ak, attempts, i, delay) {
      var all: seq<Attempt>, allCaches: seq<Cache>, j: nat :|
        attempts <= all && Replayed(ak, all, allCaches, i, j, delay);
      assert all[i] == last;
      SecondAcceptanceNeedsDelay(ak, all, allCaches, i, j);
    }
    if last.payload.timestamp + delay > last.checkedAt
       && last.checkedAt <= last.payload.timestamp + 300 {
      var again := ReplayAtTheLastMoment(ak, attempts, caches, delay);
      assert attempts <= attempts + [again];
    }
  }

  /** A payload dated ten seconds ahead, accepted twice. */
  lemma DatedAheadAcceptedTwice() returns (attempts: seq<Attempt>, caches: seq<Cache>)
    ensures Run(None, attempts, caches) && |attempts| == 2 && attempts[0].payload == attempts[1].payload
    ensures forall i :: 0 <= i < 2 ==>
              Accepted(None, attempts[i], caches[i]) && attempts[i].verifiedAt == attempts[i].checkedAt
  {
    var id: Bytes := seq(AUTH_ID_BYTES, _ => 7);
    var p := Payload(1, id, 10, 60, id, []);
    attempts := [Attempt(p, Ok(true), 0, 0), Attempt(p, Ok(true), 301, 301)];
    caches := [map[], Recorded(map[], id, 0), Recorded(Recorded(map[], id, 0), id, 301)];
  }

  /** The order of the checks: which rejection a payload gets when several apply. */
  lemma FirstRejectionWins(p: Payload, ak: Option<Bytes>, signature: Result<bool>, now: nat)
    ensures var r := VerifyInitiate(p, ak, signature, now);
            if p.version != 1 then r == Some(UnsupportedVersion(p.version))
            else if p.timestamp > now + 10 then r == Some(TimestampInFuture(p.timestamp - now))
            else if now > p.timestamp + 300 then r == Some(TimestampExpired(now - p.timestamp))
            else if !(60 <= p.sessionTtlSecs <= 1200) then r == Some(InvalidSessionTtl)
            else if |p.authorizationId| != 32 || |p.operatorHash| != 32 then r == Some(MalformedPayload)
            else if ak.Some? && ak.value != p.vm0AkPublic then r == Some(AkPublicMismatch)
            else match signature
              case Err => r == Some(MalformedPayload)
              case Ok(valid) => r == if valid then None else Some(InvalidSignature)
  {
  }
}
