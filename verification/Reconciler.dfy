/**
 * internal/reconcile/reconciler.go and snapshot.go: the fetch-diff-handle-update cycle and the
 * snapshot it maintains. What the control plane answers and how each handler ends are inputs.
 */
module Reconciler {
  import opened Prelude
  import opened Api
  import opened DesiredState
  import opened StateDiff

  datatype Outcome = Succeeded | Failed | Panicked

  /** One cycle's inputs: the answer to FetchState (None on error) and the end of each handler. */
  datatype Cycle = Cycle(fetched: Option<Option<StateResponse>>, outcomes: seq<Outcome>)

  /** The categories a snapshot keeps; the rest of a state response is not stored. */
  function Stored(s: StateResponse): StateResponse
  {
    s.(bridge := "")
  }

  // ----- Specification -----

  /** The diff handed to the handlers, or none when they are not invoked. */
  function Handed(snapshot: StateResponse, c: Cycle): Option<Diff>
  {
    if c.fetched == None then None
    else
      var d := ComputeDiff(c.fetched.value, Some(snapshot));
      if d.IsEmpty() then None else Some(d)
  }

  predicate AllSucceeded(outcomes: seq<Outcome>)
  {
    forall i | 0 <= i < |outcomes| :: outcomes[i] == Succeeded
  }

  /** A cycle that found drift and in which every handler succeeded. */
  predicate Accepts(snapshot: StateResponse, c: Cycle)
  {
    Handed(snapshot, c).Some? && AllSucceeded(c.outcomes)
  }

  lemma AcceptsDesired(snapshot: StateResponse, c: Cycle)
    requires Accepts(snapshot, c)
    ensures c.fetched.Some? && c.fetched.value.Some?
  {
  }

  function AfterCycle(snapshot: StateResponse, c: Cycle): StateResponse
  {
    if Accepts(snapshot, c) then
      AcceptsDesired(snapshot, c);
      Stored(c.fetched.value.value)
    else snapshot
  }

  // ----- The objects -----

  /** Values are copied on the way in and out, so the fields are shared with nobody. */
  class StateSnapshot {
    var stored: StateResponse

    constructor ()
      ensures stored == ZERO_STATE
    {
      stored := ZERO_STATE;
    }

    method Get() returns (s: StateResponse)
      ensures s == stored
    {
      s := stored;
    }

    method Update(desired: StateResponse)
      modifies this
      ensures stored == Stored(desired)
    {
      stored := StateResponse(desired.peers, desired.policies, desired.signingKeys, desired.metadata,
                              desired.data, desired.secretRefs, "");
    }
  }

  class Reconciler {
    const snapshot: StateSnapshot

    constructor ()
      ensures fresh(snapshot) && snapshot.stored == ZERO_STATE
    {
      snapshot := new StateSnapshot();
    }

    /** Every handler is invoked, also after a failure; a panic counts as an error. */
    method InvokeHandlers(outcomes: seq<Outcome>) returns (anyFailed: bool, invoked: nat)
      ensures anyFailed <==> !AllSucceeded(outcomes)
      ensures invoked == |outcomes|
    {
      anyFailed, invoked := false, 0;
      for i := 0 to |outcomes|
        invariant anyFailed <==> exists k | 0 <= k < i :: outcomes[k] != Succeeded
        invariant invoked == i
      {
        invoked := invoked + 1;
        if outcomes[i] != Succeeded {
          anyFailed := true;
        }
      }
    }

    method RunCycle(c: Cycle) returns (handed: Option<Diff>)
      modifies snapshot
      ensures handed == Handed(old(snapshot.stored), c)
      ensures snapshot.stored == AfterCycle(old(snapshot.stored), c)
    {
      if c.fetched == None {
        return None;
      }
      var desired := c.fetched.value;
      var current := snapshot.Get();
      var diff := RunComputeDiff(desired, Some(current));
      if diff.IsEmpty() {
        return None;
      }
      var failed, _ := InvokeHandlers(c.outcomes);
      if !failed {
        AcceptsDesired(current, c);
        snapshot.Update(desired.value);
      }
      handed := Some(diff);
    }
  }

  // ----- Runs -----

  function SnapshotAt(start: StateResponse, run: seq<Cycle>, n: nat): StateResponse
    requires n <= |run|
  {
    if n == 0 then start else AfterCycle(SnapshotAt(start, run, n - 1), run[n - 1])
  }

  predicate AcceptedAt(start: StateResponse, run: seq<Cycle>, k: nat)
    requires k < |run|
  {
    Accepts(SnapshotAt(start, run, k), run[k])
  }

  predicate NoneAccepted(start: StateResponse, run: seq<Cycle>, from: nat, n: nat)
    requires n <= |run|
  {
    forall k: nat | from <= k < n :: !AcceptedAt(start, run, k)
  }

  /** The snapshot is the state of cycle `k`, the last one accepted before `n`. */
  predicate IsLastAccepted(start: StateResponse, run: seq<Cycle>, k: nat, n: nat)
    requires k < n <= |run|
  {
    && AcceptedAt(start, run, k)
    && NoneAccepted(start, run, k + 1, n)
    && run[k].fetched.Some? && run[k].fetched.value.Some?
    && SnapshotAt(start, run, n) == Stored(run[k].fetched.value.value)
  }

  lemma RejectedKeeps(start: StateResponse, run: seq<Cycle>, k: nat, n: nat)
    requires k < n < |run| && IsLastAccepted(start, run, k, n) && !AcceptedAt(start, run, n)
    ensures IsLastAccepted(start, run, k, n + 1)
  {
  }

  lemma AcceptedReplaces(start: StateResponse, run: seq<Cycle>, n: nat)
    requires n < |run| && AcceptedAt(start, run, n)
    ensures IsLastAccepted(start, run, n, n + 1)
  {
  }

  lemma {:induction false} LastAccepted(start: StateResponse, run: seq<Cycle>, n: nat) returns (last: Option<nat>)
    requires n <= |run|
    ensures last == None ==> NoneAccepted(start, run, 0, n) && SnapshotAt(start, run, n) == start
    ensures last.Some? ==> last.value < n && IsLastAccepted(start, run, last.value, n)
    decreases n
  {
    if n == 0 {
      return None;
    }
    last := LastAccepted(start, run, n - 1);
    if AcceptedAt(start, run, n - 1) {
      AcceptedReplaces(start, run, n - 1);
      last := Some(n - 1);
    } else if last.Some? {
      RejectedKeeps(start, run, last.value, n - 1);
    }
  }

  /**
   * Over any run, with arbitrary fetch errors, handler failures and panics: the snapshot is the
   * desired state of the last accepted cycle, or the start when there was none.
   */
  lemma SnapshotIsLastAccepted(start: StateResponse, run: seq<Cycle>, n: nat)
    requires n <= |run|
    ensures (NoneAccepted(start, run, 0, n) && SnapshotAt(start, run, n) == start)
         || (exists k: nat | k < n :: IsLastAccepted(start, run, k, n))
  {
    var last := LastAccepted(start, run, n);
  }

  /** Fetching a just-accepted state again invokes no handler, exactly when its peer IDs are consistent. */
  lemma RefetchIsQuietIff(snapshot: StateResponse, c: Cycle, again: Cycle)
    requires Accepts(snapshot, c) && again.fetched == c.fetched
    ensures c.fetched.Some? && c.fetched.value.Some?
    ensures Handed(AfterCycle(snapshot, c), again) == None <==> ConsistentPeers(c.fetched.value.value.peers)
  {
    AcceptsDesired(snapshot, c);
    SelfDriftIff(c.fetched.value.value, "");
  }

  /** So with unique peer IDs it never does, and the snapshot stays. */
  lemma RefetchIsQuiet(snapshot: StateResponse, c: Cycle, again: Cycle)
    requires Accepts(snapshot, c) && again.fetched == c.fetched
    requires c.fetched.Some? && c.fetched.value.Some? && UniqueIds(c.fetched.value.value.peers, PeerId)
    ensures Handed(AfterCycle(snapshot, c), again) == None
    ensures AfterCycle(AfterCycle(snapshot, c), again) == AfterCycle(snapshot, c)
  {
    UniqueIsConsistent(c.fetched.value.value.peers);
    RefetchIsQuietIff(snapshot, c, again);
  }

  /** After a cycle with a failed handler the same state presents the identical diff again. */
  lemma FailedDiffReturns(snapshot: StateResponse, c: Cycle, again: Cycle)
    requires !AllSucceeded(c.outcomes) && again.fetched == c.fetched
    ensures Handed(AfterCycle(snapshot, c), again) == Handed(snapshot, c)
  {
  }

  /** Once a state is accepted, a later one reaches the handlers exactly when it is not settled against it. */
  lemma HandedAfterAcceptIff(snapshot: StateResponse, c: Cycle, desired: StateResponse, outcomes: seq<Outcome>)
    requires Accepts(snapshot, c)
    ensures c.fetched.Some? && c.fetched.value.Some?
    ensures Handed(AfterCycle(snapshot, c), Cycle(Some(Some(desired)), outcomes)) == None
       <==> Settled(desired, c.fetched.value.value)
  {
    AcceptsDesired(snapshot, c);
    NoDriftIff(desired, Stored(c.fetched.value.value));
    assert Settled(desired, Stored(c.fetched.value.value)) == Settled(desired, c.fetched.value.value);
  }

  function Edited(s: StateResponse, i: nat, rules: seq<PolicyRule>, bridge: string): StateResponse
    requires i < |s.policies|
  {
    s.(policies := s.policies[i := s.policies[i].(rules := rules)], bridge := bridge)
  }

  /**
   * New rules under an unchanged policy ID, together with any change of the bridge-side configuration,
   * reach a handler only if the peers of the state show drift against themselves.
   */
  lemma EditedPolicyIsHandedIff(
    snapshot: StateResponse, c: Cycle, i: nat, rules: seq<PolicyRule>, bridge: string, outcomes: seq<Outcome>)
    requires Accepts(snapshot, c) && c.fetched.Some? && c.fetched.value.Some?
    requires i < |c.fetched.value.value.policies|
    ensures var s := c.fetched.value.value;
            Handed(AfterCycle(snapshot, c), Cycle(Some(Some(Edited(s, i, rules, bridge))), outcomes)).Some?
            <==> !ConsistentPeers(s.peers)
  {
    var s := c.fetched.value.value;
    HandedAfterAcceptIff(snapshot, c, Edited(s, i, rules, bridge), outcomes);
    SelfDriftIff(s, bridge);
    NoDriftIff(s, s.(bridge := bridge));
    SameIds(s.policies, i, s.policies[i].(rules := rules));
  }

  lemma SameIds(policies: seq<Policy>, i: nat, p: Policy)
    requires i < |policies| && p.id == policies[i].id
    ensures Ids(policies[i := p], PolicyId) == Ids(policies, PolicyId)
  {
    var edited := policies[i := p];
    forall q | q in policies
      ensures PolicyId(q) in Ids(edited, PolicyId)
    {
      var k :| 0 <= k < |policies| && policies[k] == q;
      assert edited[k] in edited;
    }
    forall q | q in edited
      ensures PolicyId(q) in Ids(policies, PolicyId)
    {
      var k :| 0 <= k < |edited| && edited[k] == q;
      assert policies[k] in policies;
    }
  }
}
