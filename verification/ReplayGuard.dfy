/**
 * internal/api/verifier.go: freshness, signature and nonce checks on signed envelopes.
 * Clock readings are arguments, one per call of time.Now or time.Since; the signature scheme,
 * base64 and JSON are parameters.
 */
module ReplayGuard {
  import opened Prelude

  const ZERO_TIME: Time := 0

  const SECOND: int := 1_000_000_000

  const STALENESS_WINDOW: int := 300 * SECOND

  const NONCE_TTL: int := 300 * SECOND

  const CLEANUP_INTERVAL: int := 60 * SECOND

  datatype Envelope = Envelope(
    eventType: string, eventID: string, issuedAt: Time, nonce: string, payload: string, signature: string)

  /** An empty previous key stands for "none". */
  datatype Keys = Keys(current: string, previous: string, transitionExpires: Time)

  datatype Crypto = Crypto(
    decodes: string -> bool,
    marshals: Envelope -> bool,
    signedBy: (string, Envelope) -> bool)

  datatype VerifyError = MissingSignature | MissingNonce | MissingIssuedAt | StaleEvent | FutureEvent
                       | BadSignature | DuplicateNonce

  /** The clock readings of one call, in program order. */
  datatype Readings = Readings(
    stale: Time, future: Time, transition: Time, sinceCleanup: Time, cutoff: Time, cleaned: Time)

  predicate Nondecreasing(r: Readings)
  {
    r.stale <= r.future <= r.transition <= r.sinceCleanup <= r.cutoff <= r.cleaned
  }

  // ----- Specification on values -----

  datatype Guard = Guard(keys: Keys, seen: map<string, Time>, lastCleanup: Time)

  function Unexpired(seen: map<string, Time>, now: Time): map<string, Time>
  {
    map k | k in seen && seen[k] >= now - NONCE_TTL :: seen[k]
  }

  predicate CleanupDue(lastCleanup: Time, r: Readings)
  {
    r.sinceCleanup - lastCleanup >= CLEANUP_INTERVAL
  }

  /** The remembered nonces at the moment the duplicate check runs. */
  function Remembered(seen: map<string, Time>, lastCleanup: Time, r: Readings): map<string, Time>
  {
    if CleanupDue(lastCleanup, r) then Unexpired(seen, r.cutoff) else seen
  }

  function CleanupTime(lastCleanup: Time, r: Readings): Time
  {
    if CleanupDue(lastCleanup, r) then r.cleaned else lastCleanup
  }

  /** The checks that precede the nonce store. */
  function Screen(crypto: Crypto, keys: Keys, e: Envelope, r: Readings): Option<VerifyError>
  {
    if e.signature == "" then Some(MissingSignature)
    else if e.nonce == "" then Some(MissingNonce)
    else if e.issuedAt == ZERO_TIME then Some(MissingIssuedAt)
    else if r.stale - e.issuedAt > STALENESS_WINDOW then Some(StaleEvent)
    else if e.issuedAt > r.future + STALENESS_WINDOW then Some(FutureEvent)
    else if !crypto.decodes(e.signature) || !crypto.marshals(e) then Some(BadSignature)
    else if crypto.signedBy(keys.current, e) then None
    else if keys.previous != "" && r.transition < keys.transitionExpires && crypto.signedBy(keys.previous, e) then None
    else Some(BadSignature)
  }

  function Verified(crypto: Crypto, g: Guard, e: Envelope, r: Readings): Option<VerifyError>
  {
    var err := Screen(crypto, g.keys, e, r);
    if err.Some? then err
    else if e.nonce in Remembered(g.seen, g.lastCleanup, r) then Some(DuplicateNonce)
    else None
  }

  /** The guard after a call: untouched when the envelope is screened out. */
  function AfterVerify(crypto: Crypto, g: Guard, e: Envelope, r: Readings): Guard
  {
    if Screen(crypto, g.keys, e, r).Some? then g
    else
      var seen := Remembered(g.seen, g.lastCleanup, r);
      g.(seen := if e.nonce in seen then seen else seen[e.nonce := e.issuedAt],
         lastCleanup := CleanupTime(g.lastCleanup, r))
  }

  // ----- The objects -----

  class NonceStore {
    var seen: map<string, Time>
    var lastCleanup: Time

    constructor (now: Time)
      ensures seen == map[] && lastCleanup == now
    {
      seen, lastCleanup := map[], now;
    }

    method Cleanup(cutoffNow: Time, doneNow: Time)
      modifies this
      ensures seen == Unexpired(old(seen), cutoffNow)
      ensures lastCleanup == doneNow
    {
      var cutoff := cutoffNow - NONCE_TTL;
      var todo := seen.Keys;
      while todo != {}
        invariant todo <= old(seen).Keys
        invariant seen == map k | k in old(seen) && (k in todo || old(seen)[k] >= cutoff) :: old(seen)[k]
        decreases |todo|
      {
        var k :| k in todo;
        todo := todo - {k};
        if seen[k] < cutoff {
          seen := seen - {k};
        }
      }
      lastCleanup := doneNow;
    }

    method Add(nonce: string, issuedAt: Time, r: Readings) returns (added: bool)
      modifies this
      ensures added <==> nonce !in Remembered(old(seen), old(lastCleanup), r)
      ensures lastCleanup == CleanupTime(old(lastCleanup), r)
      ensures seen == if added then Remembered(old(seen), old(lastCleanup), r)[nonce := issuedAt]
                      else Remembered(old(seen), old(lastCleanup), r)
    {
      if r.sinceCleanup - lastCleanup >= CLEANUP_INTERVAL {
        Cleanup(r.cutoff, r.cleaned);
      }
      if nonce in seen {
        return false;
      }
      seen := seen[nonce := issuedAt];
      added := true;
    }
  }

  class Ed25519Verifier {
    var currentKey: string
    var previousKey: string
    var transitionExpires: Time
    const nonces: NonceStore

    constructor (currentKey: string, now: Time)
      ensures fresh(nonces)
      ensures Value() == Guard(Keys(currentKey, "", ZERO_TIME), map[], now)
    {
      this.currentKey, previousKey, transitionExpires := currentKey, "", ZERO_TIME;
      nonces := new NonceStore(now);
    }

    ghost function Value(): Guard
      reads this, nonces
    {
      Guard(Keys(currentKey, previousKey, transitionExpires), nonces.seen, nonces.lastCleanup)
    }

    method SetKeys(current: string, previous: string, expires: Time)
      modifies this
      ensures Value() == old(Value()).(keys := Keys(current, previous, expires))
    {
      currentKey, previousKey, transitionExpires := current, previous, expires;
    }

    method Verify(crypto: Crypto, e: Envelope, r: Readings) returns (err: Option<VerifyError>)
      modifies nonces
      ensures err == Verified(crypto, old(Value()), e, r)
      ensures Value() == AfterVerify(crypto, old(Value()), e, r)
    {
      if e.signature == "" {
        return Some(MissingSignature);
      }
      if e.nonce == "" {
        return Some(MissingNonce);
      }
      if e.issuedAt == ZERO_TIME {
        return Some(MissingIssuedAt);
      }
      if r.stale - e.issuedAt > STALENESS_WINDOW {
        return Some(StaleEvent);
      }
      if e.issuedAt > r.future + STALENESS_WINDOW {
        return Some(FutureEvent);
      }
      if !crypto.decodes(e.signature) || !crypto.marshals(e) {
        return Some(BadSignature);
      }
      var verified := crypto.signedBy(currentKey, e);
      if !verified && previousKey != "" && r.transition < transitionExpires {
        verified := crypto.signedBy(previousKey, e);
      }
      if !verified {
        return Some(BadSignature);
      }
      var ok := nonces.Add(e.nonce, e.issuedAt, r);
      err := if ok then None else Some(DuplicateNonce);
    }
  }

  // ----- Runs; durations are written out in nanoseconds here -----

  /**
   * Operations in the order in which they take effect; for Verify, the order of the store's lock. A
   * call reads the keys before it gets there: `read` operations had taken effect by then.
   */
  datatype Op = SetKeys(keys: Keys) | Verify(e: Envelope, r: Readings, read: nat)

  /** The keys installed by the last SetKeys before position `n`. */
  function KeysAt(start: Keys, ops: seq<Op>, n: nat): Keys
    requires n <= |ops|
  {
    if n == 0 then start
    else if ops[n - 1].SetKeys? then ops[n - 1].keys
    else KeysAt(start, ops, n - 1)
  }

  /** The keys that call `i` works with. */
  function KeysRead(start: Keys, ops: seq<Op>, i: nat): Keys
    requires i < |ops| && ops[i].Verify?
  {
    KeysAt(start, ops, if ops[i].read < i then ops[i].read else i)
  }

  function StateAt(crypto: Crypto, g: Guard, ops: seq<Op>, n: nat): Guard
    requires n <= |ops|
  {
    if n == 0 then g
    else
      var before := StateAt(crypto, g, ops, n - 1);
      match ops[n - 1]
      case SetKeys(keys) => before.(keys := keys)
      case Verify(e, r, _) =>
        AfterVerify(crypto, before.(keys := KeysRead(g.keys, ops, n - 1)), e, r).(keys := before.keys)
  }

  /** The guard as call `i` sees it. */
  function Seen(crypto: Crypto, g: Guard, ops: seq<Op>, i: nat): Guard
    requires i < |ops| && ops[i].Verify?
  {
    StateAt(crypto, g, ops, i).(keys := KeysRead(g.keys, ops, i))
  }

  predicate Accepted(crypto: Crypto, g: Guard, ops: seq<Op>, i: nat)
    requires i < |ops|
  {
    ops[i].Verify? && Verified(crypto, Seen(crypto, g, ops, i), ops[i].e, ops[i].r) == None
  }

  /** Call `k` reaches the store and runs a cleanup there. */
  predicate CleansUp(crypto: Crypto, g: Guard, ops: seq<Op>, k: nat)
    requires k < |ops|
  {
    && ops[k].Verify?
    && Screen(crypto, KeysRead(g.keys, ops, k), ops[k].e, ops[k].r) == None
    && CleanupDue(StateAt(crypto, g, ops, k).lastCleanup, ops[k].r)
  }

  /** The clock never runs backwards within a call, nor between the store's critical sections. */
  predicate LockedClock(ops: seq<Op>)
  {
    && (forall i | 0 <= i < |ops| && ops[i].Verify? :: Nondecreasing(ops[i].r))
    && (forall i, j | 0 <= i < j < |ops| && ops[i].Verify? && ops[j].Verify? ::
          ops[i].r.cleaned <= ops[j].r.sinceCleanup)
  }

  /** Calls do not overlap: each starts after the previous one has read the clock for the last time. */
  predicate SerialClock(ops: seq<Op>)
  {
    && (forall i | 0 <= i < |ops| && ops[i].Verify? :: Nondecreasing(ops[i].r))
    && (forall i, j | 0 <= i < j < |ops| && ops[i].Verify? && ops[j].Verify? ::
          ops[i].r.cleaned <= ops[j].r.stale)
  }

  /** A cleanup after call `i` and before position `n` dropped nonces as old as `issuedAt`. */
  predicate ForgottenBetween(crypto: Crypto, g: Guard, ops: seq<Op>, i: nat, n: nat, issuedAt: Time)
    requires n <= |ops|
  {
    exists k: nat | i < k < n :: CleansUp(crypto, g, ops, k) && issuedAt + 300_000_000_000 < ops[k].r.cutoff
  }

  lemma {:induction false} RememberedUntilForgotten(crypto: Crypto, g: Guard, ops: seq<Op>, i: nat, n: nat)
    requires i < n <= |ops| && Accepted(crypto, g, ops, i)
    ensures var e := ops[i].e; var seen := StateAt(crypto, g, ops, n).seen;
            (e.nonce in seen && seen[e.nonce] == e.issuedAt) || ForgottenBetween(crypto, g, ops, i, n, e.issuedAt)
    decreases n
  {
    if n == i + 1 {
    } else {
      var e := ops[i].e;
      RememberedUntilForgotten(crypto, g, ops, i, n - 1);
      if ForgottenBetween(crypto, g, ops, i, n - 1, e.issuedAt) {
        var k: nat :| i < k < n - 1 && CleansUp(crypto, g, ops, k) && e.issuedAt + 300_000_000_000 < ops[k].r.cutoff;
        assert ForgottenBetween(crypto, g, ops, i, n, e.issuedAt);
      } else {
        var before := StateAt(crypto, g, ops, n - 1);
        if ops[n - 1].Verify? && e.nonce !in Remembered(before.seen, before.lastCleanup, ops[n - 1].r)
           && Screen(crypto, KeysRead(g.keys, ops, n - 1), ops[n - 1].e, ops[n - 1].r) == None
        {
          assert CleansUp(crypto, g, ops, n - 1);
          assert ForgottenBetween(crypto, g, ops, i, n, e.issuedAt);
        }
      }
    }
  }

  /** A nonce is accepted again only once a cleanup, at the latest the call's own, has forgotten it. */
  lemma ForgottenByNow(crypto: Crypto, g: Guard, ops: seq<Op>, k: nat, i: nat)
    requires k < i < |ops| && Accepted(crypto, g, ops, k) && Accepted(crypto, g, ops, i)
    requires ops[k].e.nonce == ops[i].e.nonce
    ensures ForgottenBetween(crypto, g, ops, k, i + 1, ops[k].e.issuedAt)
  {
    RememberedUntilForgotten(crypto, g, ops, k, i);
    if ForgottenBetween(crypto, g, ops, k, i, ops[k].e.issuedAt) {
      var c: nat :| k < c < i && CleansUp(crypto, g, ops, c) && ops[k].e.issuedAt + 300_000_000_000 < ops[c].r.cutoff;
      assert ForgottenBetween(crypto, g, ops, k, i + 1, ops[k].e.issuedAt);
    } else {
      assert CleansUp(crypto, g, ops, i);
      assert ForgottenBetween(crypto, g, ops, k, i + 1, ops[k].e.issuedAt);
    }
  }

  /**
   * Overlapping calls: a (nonce, issued_at) pair is accepted again only if some cleanup, after the
   * first acceptance and no later than the second call's own, read a clock past issued_at + 5 min
   * although the second call's staleness check had not.
   */
  lemma ReplayNeedsClockPassing(crypto: Crypto, g: Guard, ops: seq<Op>, i: nat, j: nat)
    requires i < j < |ops| && Accepted(crypto, g, ops, i) && Accepted(crypto, g, ops, j)
    requires ops[i].e.nonce == ops[j].e.nonce && ops[i].e.issuedAt == ops[j].e.issuedAt
    ensures ops[j].r.stale <= ops[j].e.issuedAt + 300_000_000_000
    ensures ForgottenBetween(crypto, g, ops, i, j + 1, ops[j].e.issuedAt)
  {
    ForgottenByNow(crypto, g, ops, i, j);
  }

  /** Serial calls: the clock must pass issued_at + 5 min inside the second call itself. */
  lemma SerialReplayCrossesDeadline(crypto: Crypto, g: Guard, ops: seq<Op>, i: nat, j: nat)
    requires SerialClock(ops)
    requires i < j < |ops| && Accepted(crypto, g, ops, i) && Accepted(crypto, g, ops, j)
    requires ops[i].e.nonce == ops[j].e.nonce && ops[i].e.issuedAt == ops[j].e.issuedAt
    ensures CleansUp(crypto, g, ops, j)
    ensures ops[j].r.stale <= ops[j].e.issuedAt + 300_000_000_000 < ops[j].r.cutoff
  {
    ReplayNeedsClockPassing(crypto, g, ops, i, j);
    var k: nat :| i < k < j + 1 && CleansUp(crypto, g, ops, k) && ops[j].e.issuedAt + 300_000_000_000 < ops[k].r.cutoff;
    assert k == j;
  }

  lemma NotForgottenAtOneReading(crypto: Crypto, g: Guard, ops: seq<Op>, i: nat, j: nat)
    requires LockedClock(ops) && i < j < |ops| && ops[j].Verify?
    requires ops[j].r.stale == ops[j].r.cutoff <= ops[j].e.issuedAt + 300_000_000_000
    ensures !ForgottenBetween(crypto, g, ops, i, j + 1, ops[j].e.issuedAt)
  {
    forall k: nat | i < k < j + 1 && CleansUp(crypto, g, ops, k)
      ensures ops[k].r.cutoff <= ops[j].e.issuedAt + 300_000_000_000
    {
      if k < j {
        assert ops[k].r.cleaned <= ops[j].r.sinceCleanup;
      }
    }
  }

  /** Overlapping calls included: with one clock reading in the second call no pair is ever accepted twice. */
  lemma NoReplayWithOneReading(crypto: Crypto, g: Guard, ops: seq<Op>, i: nat, j: nat)
    requires LockedClock(ops)
    requires i < j < |ops| && ops[i].Verify? && ops[j].Verify?
    requires ops[i].e.nonce == ops[j].e.nonce && ops[i].e.issuedAt == ops[j].e.issuedAt
    requires ops[j].r.stale == ops[j].r.cutoff
    ensures !(Accepted(crypto, g, ops, i) && Accepted(crypto, g, ops, j))
  {
    if Accepted(crypto, g, ops, i) && Accepted(crypto, g, ops, j) {
      ReplayNeedsClockPassing(crypto, g, ops, i, j);
      NotForgottenAtOneReading(crypto, g, ops, i, j);
    }
  }

  /**
   * Serial calls: a pair accepted once is accepted again exactly when its call runs a cleanup that
   * reads a clock past issued_at + 5 min, having passed the staleness check before.
   */
  lemma SerialReplayIff(crypto: Crypto, g: Guard, ops: seq<Op>, i: nat, j: nat)
    requires SerialClock(ops)
    requires i < j < |ops| && Accepted(crypto, g, ops, i) && ops[j].Verify?
    requires ops[i].e.nonce == ops[j].e.nonce && ops[i].e.issuedAt == ops[j].e.issuedAt
    ensures Accepted(crypto, g, ops, j)
       <==> CleansUp(crypto, g, ops, j) && ops[j].e.issuedAt + 300_000_000_000 < ops[j].r.cutoff
  {
    if Accepted(crypto, g, ops, j) {
      SerialReplayCrossesDeadline(crypto, g, ops, i, j);
    }
    RememberedUntilForgotten(crypto, g, ops, i, j);
  }

  /** Two calls of a verifier with an empty store: the same envelope is accepted both times. */
  lemma ReplayedAtDeadline(crypto: Crypto, keys: Keys, e: Envelope)
    requires e.signature != "" && e.nonce != "" && e.issuedAt != 0
    requires crypto.decodes(e.signature) && crypto.marshals(e) && crypto.signedBy(keys.current, e)
    ensures var t := e.issuedAt; var late := t + 300_000_000_000;
            var ops := [Verify(e, Readings(t, t, t, t, t, t), 0),
                        Verify(e, Readings(late, late, late, late, late + 1, late + 1), 1)];
            var g := Guard(keys, map[], t);
            SerialClock(ops) && Accepted(crypto, g, ops, 0) && Accepted(crypto, g, ops, 1)
  {
    var t := e.issuedAt;
    var late := t + 300_000_000_000;
    var ops := [Verify(e, Readings(t, t, t, t, t, t), 0),
                Verify(e, Readings(late, late, late, late, late + 1, late + 1), 1)];
    var g := Guard(keys, map[], t);
    assert KeysAt(keys, ops, 0) == keys && KeysAt(keys, ops, 1) == keys;
    assert StateAt(crypto, g, ops, 1) == Guard(keys, map[e.nonce := t], t);
  }

  // ----- What decides a call, over the whole history -----

  /** Call `k` was accepted with call `i`'s nonce, and no cleanup up to and including call `i`'s has forgotten it. */
  predicate StillKnown(crypto: Crypto, g: Guard, ops: seq<Op>, k: nat, i: nat)
    requires k < i < |ops| && ops[i].Verify?
  {
    && Accepted(crypto, g, ops, k) && ops[k].e.nonce == ops[i].e.nonce
    && !ForgottenBetween(crypto, g, ops, k, i + 1, ops[k].e.issuedAt)
  }

  /** A remembered nonce goes back to an accepted call that no cleanup has forgotten. */
  lemma {:induction false} RememberedFrom(crypto: Crypto, g: Guard, ops: seq<Op>, n: nat, nonce: string)
    returns (k: nat)
    requires n <= |ops| && g.seen == map[] && nonce in StateAt(crypto, g, ops, n).seen
    ensures k < n && Accepted(crypto, g, ops, k) && ops[k].e.nonce == nonce
    ensures !ForgottenBetween(crypto, g, ops, k, n, ops[k].e.issuedAt)
    ensures StateAt(crypto, g, ops, n).seen[nonce] == ops[k].e.issuedAt
    decreases n
  {
    if Accepted(crypto, g, ops, n - 1) && ops[n - 1].e.nonce == nonce {
      k := n - 1;
    } else {
      k := RememberedFrom(crypto, g, ops, n - 1, nonce);
      forall c: nat | k < c < n && CleansUp(crypto, g, ops, c)
        ensures ops[c].r.cutoff <= ops[k].e.issuedAt + 300_000_000_000
      {
        if c < n - 1 {
          assert !ForgottenBetween(crypto, g, ops, k, n - 1, ops[k].e.issuedAt);
        }
      }
    }
  }

  /** Complete, and within five minutes of the clock either way. */
  predicate Presentable(e: Envelope, r: Readings)
  {
    && e.signature != "" && e.nonce != "" && e.issuedAt != 0
    && r.stale - 300_000_000_000 <= e.issuedAt <= r.future + 300_000_000_000
  }

  predicate SignedWith(crypto: Crypto, keys: Keys, e: Envelope, r: Readings)
  {
    && crypto.decodes(e.signature) && crypto.marshals(e)
    && (|| crypto.signedBy(keys.current, e)
        || (keys.previous != "" && r.transition < keys.transitionExpires && crypto.signedBy(keys.previous, e)))
  }

  /**
   * From an empty store, an envelope is accepted exactly when it is complete, within five minutes of
   * the clock either way, signed by the current key or, before the transition ends, by the previous
   * one, and every earlier acceptance of its nonce has been forgotten by a cleanup, at the latest the
   * call's own. The keys are those set last when the call read them, which may be before its turn at
   * the store.
   */
  lemma AcceptedIff(crypto: Crypto, g: Guard, ops: seq<Op>, i: nat)
    requires i < |ops| && ops[i].Verify? && g.seen == map[]
    ensures var e := ops[i].e; var r := ops[i].r;
            Accepted(crypto, g, ops, i)
            <==> && Presentable(e, r)
                 && SignedWith(crypto, KeysRead(g.keys, ops, i), e, r)
                 && forall k: nat | k < i :: !StillKnown(crypto, g, ops, k, i)
  {
    var e, r, s := ops[i].e, ops[i].r, StateAt(crypto, g, ops, i);
    if Screen(crypto, KeysRead(g.keys, ops, i), e, r) == None {
      if e.nonce in Remembered(s.seen, s.lastCleanup, r) {
        KnownIsRefused(crypto, g, ops, i);
      } else {
        forall k: nat | k < i && Accepted(crypto, g, ops, k) && ops[k].e.nonce == e.nonce
          ensures ForgottenBetween(crypto, g, ops, k, i + 1, ops[k].e.issuedAt)
        {
          ForgottenByNow(crypto, g, ops, k, i);
        }
      }
    }
  }

  lemma KnownIsRefused(crypto: Crypto, g: Guard, ops: seq<Op>, i: nat)
    requires i < |ops| && ops[i].Verify? && g.seen == map[]
    requires var s := StateAt(crypto, g, ops, i); ops[i].e.nonce in Remembered(s.seen, s.lastCleanup, ops[i].r)
    ensures exists k: nat | k < i :: StillKnown(crypto, g, ops, k, i)
  {
    var k := RememberedFrom(crypto, g, ops, i, ops[i].e.nonce);
    forall c: nat | k < c < i + 1 && CleansUp(crypto, g, ops, c)
      ensures ops[c].r.cutoff <= ops[k].e.issuedAt + 300_000_000_000
    {
      if c < i {
        assert !ForgottenBetween(crypto, g, ops, k, i, ops[k].e.issuedAt);
      }
    }
    assert StillKnown(crypto, g, ops, k, i);
  }

  /** Why a call is refused: the first check that fails. */
  lemma RefusedBecause(crypto: Crypto, g: Guard, e: Envelope, r: Readings)
    ensures var err := Verified(crypto, g, e, r);
            var stale := r.stale - e.issuedAt > 300_000_000_000;
            var future := e.issuedAt > r.future + 300_000_000_000;
            var complete := e.signature != "" && e.nonce != "" && e.issuedAt != 0;
            && (err == Some(MissingSignature) <==> e.signature == "")
            && (err == Some(MissingNonce) <==> e.signature != "" && e.nonce == "")
            && (err == Some(MissingIssuedAt) <==> e.signature != "" && e.nonce != "" && e.issuedAt == 0)
            && (err == Some(StaleEvent) <==> complete && stale)
            && (err == Some(FutureEvent) <==> complete && !stale && future)
            && (err == Some(BadSignature) <==> Presentable(e, r) && !SignedWith(crypto, g.keys, e, r))
            && (err == Some(DuplicateNonce) ==> e.nonce in g.seen)
  {
  }

  /** The last reading of the last call before `n` that cleaned up, or the start. */
  function LastCleanup(crypto: Crypto, g: Guard, ops: seq<Op>, n: nat): Time
    requires n <= |ops|
  {
    if n == 0 then g.lastCleanup
    else if CleansUp(crypto, g, ops, n - 1) then ops[n - 1].r.cleaned
    else LastCleanup(crypto, g, ops, n - 1)
  }

  lemma {:induction false} CleanupTimes(crypto: Crypto, g: Guard, ops: seq<Op>, n: nat)
    requires n <= |ops|
    ensures StateAt(crypto, g, ops, n).lastCleanup == LastCleanup(crypto, g, ops, n)
  {
    if n == 0 {
    } else {
      CleanupTimes(crypto, g, ops, n - 1);
    }
  }

  /** A call cleans up exactly when it reaches the store a minute or more after the last cleanup. */
  lemma CleansUpIff(crypto: Crypto, g: Guard, ops: seq<Op>, k: nat)
    requires k < |ops| && ops[k].Verify?
    ensures CleansUp(crypto, g, ops, k)
       <==> && Presentable(ops[k].e, ops[k].r)
            && SignedWith(crypto, KeysRead(g.keys, ops, k), ops[k].e, ops[k].r)
            && ops[k].r.sinceCleanup - LastCleanup(crypto, g, ops, k) >= 60_000_000_000
  {
    CleanupTimes(crypto, g, ops, k);
  }

  // ----- What is remembered -----

  /** Every remembered issued_at is at most five minutes ahead of `now`. */
  predicate NotFarAhead(seen: map<string, Time>, now: Time)
  {
    forall k | k in seen :: seen[k] <= now + 300_000_000_000
  }

  lemma {:induction false} RunNotFarAhead(crypto: Crypto, g: Guard, ops: seq<Op>, n: nat, now: Time)
    requires n <= |ops| && LockedClock(ops) && g.seen == map[]
    requires forall i | 0 <= i < n && ops[i].Verify? :: ops[i].r.cleaned <= now
    ensures NotFarAhead(StateAt(crypto, g, ops, n).seen, now)
    decreases n
  {
    if n == 0 {
    } else {
      RunNotFarAhead(crypto, g, ops, n - 1, now);
    }
  }

  /** Right after each cleanup of a run every remembered issued_at lies within five minutes of now. */
  lemma CleanupLeavesWindow(crypto: Crypto, g: Guard, ops: seq<Op>, n: nat)
    requires n < |ops| && LockedClock(ops) && g.seen == map[] && CleansUp(crypto, g, ops, n)
    ensures var now := ops[n].r.cutoff;
            var s := StateAt(crypto, g, ops, n);
            forall k | k in Remembered(s.seen, s.lastCleanup, ops[n].r) ::
              now - 300_000_000_000 <= s.seen[k] <= now + 300_000_000_000
  {
    forall i | 0 <= i < n && ops[i].Verify?
      ensures ops[i].r.cleaned <= ops[n].r.cutoff
    {
      assert ops[i].r.cleaned <= ops[n].r.sinceCleanup;
    }
    RunNotFarAhead(crypto, g, ops, n, ops[n].r.cutoff);
  }
}
