/** Desired-state lists read as maps, shared by the bridge's reconcile handlers. */
module DesiredState {

  /** A list of items as the Go loop `m[id(x)] = x` reads it: the last occurrence wins. */
  function LastWins<T>(xs: seq<T>, id: T -> string): map<string, T>
  {
    if xs == [] then map[]
    else
      var last := xs[|xs| - 1];
      LastWins(xs[..|xs| - 1], id)[id(last) := last]
  }

  /** Its keys are the IDs of the list, and each value is an item of the list under its own ID. */
  lemma {:induction false} LastWinsKeys<T>(xs: seq<T>, id: T -> string)
    ensures LastWins(xs, id).Keys == set x | x in xs :: id(x)
    ensures forall k | k in LastWins(xs, id) :: LastWins(xs, id)[k] in xs && id(LastWins(xs, id)[k]) == k
  {
    if xs == [] {
    } else {
      var front, last := xs[..|xs| - 1], xs[|xs| - 1];
      LastWinsKeys(front, id);
      assert xs == front + [last];
    }
  }

  /** The last occurrence of an ID is the one that counts. */
  lemma {:induction false} LastWinsIsLast<T>(xs: seq<T>, id: T -> string, i: nat)
    requires i < |xs| && forall j | i < j < |xs| :: id(xs[j]) != id(xs[i])
    ensures id(xs[i]) in LastWins(xs, id) && LastWins(xs, id)[id(xs[i])] == xs[i]
    decreases |xs|
  {
    if i == |xs| - 1 {
    } else {
      LastWinsIsLast(xs[..|xs| - 1], id, i);
    }
  }

  lemma LastWinsHas<T>(xs: seq<T>, id: T -> string, i: nat)
    requires i < |xs|
    ensures id(xs[i]) in LastWins(xs, id)
  {
  }

  lemma LastWinsSnoc<T>(xs: seq<T>, i: nat, id: T -> string)
    requires i < |xs|
    ensures LastWins(xs[..i + 1], id) == LastWins(xs[..i], id)[id(xs[i]) := xs[i]]
  {
    assert xs[..i + 1][..i] == xs[..i];
  }

  /** The keys of a map in some order; Go's map iteration promises none. */
  method ListKeys(keys: set<string>) returns (ids: seq<string>)
    ensures forall id :: id in ids <==> id in keys
    ensures forall i, j | 0 <= i < j < |ids| :: ids[i] != ids[j]
  {
    ids := [];
    var todo := keys;
    while todo != {}
      invariant todo <= keys
      invariant forall id :: id in ids <==> id in keys - todo
      invariant forall i, j | 0 <= i < j < |ids| :: ids[i] != ids[j]
      decreases |todo|
    {
      var id :| id in todo;
      assert id !in ids;
      todo, ids := todo - {id}, ids + [id];
    }
  }

  /** The loop that turns a desired list into a map. */
  method ReadAsMap<T>(xs: seq<T>, id: T -> string) returns (m: map<string, T>)
    ensures m == LastWins(xs, id)
  {
    m := map[];
    for i := 0 to |xs|
      invariant m == LastWins(xs[..i], id)
    {
      LastWinsSnoc(xs, i, id);
      m := m[id(xs[i]) := xs[i]];
    }
    assert xs[..|xs|] == xs;
  }

  /** Among the first `n` items, an ID occurs twice only if it is one of `settled`. */
  predicate RepeatsOnly<T>(xs: seq<T>, id: T -> string, n: nat, settled: set<string>)
    requires n <= |xs|
  {
    forall i, j | 0 <= i < j < n && id(xs[i]) == id(xs[j]) :: id(xs[i]) in settled
  }

  predicate UniqueIds<T>(xs: seq<T>, id: T -> string)
  {
    RepeatsOnly(xs, id, |xs|, {})
  }

  lemma {:induction false} SubsetSize<T>(a: set<T>, b: set<T>)
    requires a <= b
    ensures |a| <= |b|
    decreases b
  {
    if b == {} {
    } else {
      var x :| x in b;
      SubsetSize(a - {x}, b - {x});
      if x in a {
        assert |a| == |a - {x}| + 1;
      } else {
        assert a - {x} == a;
      }
    }
  }

  /** The items already running as desired: they are neither removed nor added again. */
  function Kept<T(==)>(current: map<string, T>, desired: map<string, T>): map<string, T>
  {
    map k | k in current && k in desired && current[k] == desired[k] :: current[k]
  }

  /** The map while the removal loop runs: the keys in `pending` have not been looked at yet. */
  function Pruned<T(==)>(current: map<string, T>, desired: map<string, T>, pending: set<string>): map<string, T>
  {
    map k | k in current && (k in pending || (k in desired && current[k] == desired[k])) :: current[k]
  }

  lemma PruneStep<T>(current: map<string, T>, desired: map<string, T>, pending: set<string>, id: string)
    requires id in pending && id in current
    ensures id in Pruned(current, desired, pending) && Pruned(current, desired, pending)[id] == current[id]
    ensures Pruned(current, desired, pending - {id})
         == if id in desired && current[id] == desired[id] then Pruned(current, desired, pending)
            else Pruned(current, desired, pending) - {id}
  {
  }

  /** The IDs still marked as running are, among the desired ones, the running ones. */
  predicate Marks<T>(current: set<string>, desired: map<string, T>, running: map<string, T>)
  {
    forall id | id in desired :: id in current <==> id in running
  }

  // ----- The addition loop -----

  /** What runs once the first `n` entries have been handled without error. */
  function Reached<T>(kept: map<string, T>, xs: seq<T>, id: T -> string, n: nat): map<string, T>
    requires n <= |xs|
  {
    LastWins(xs[..n], id) + kept
  }

  /** The running items are desired ones, as desired. */
  predicate AsDesired<T(==)>(kept: map<string, T>, xs: seq<T>, id: T -> string)
  {
    forall k | k in kept :: k in LastWins(xs, id) && kept[k] == LastWins(xs, id)[k]
  }

  /** Every running item is an item of the list, under its own ID. */
  predicate FromList<T(==)>(running: map<string, T>, xs: seq<T>, id: T -> string)
  {
    forall k | k in running :: running[k] in xs && id(running[k]) == k
  }

  /** What was kept is still running. */
  predicate Extends<T(==)>(kept: map<string, T>, running: map<string, T>)
  {
    forall k | k in kept :: k in running && running[k] == kept[k]
  }

  lemma KeptFromList<T>(kept: map<string, T>, xs: seq<T>, id: T -> string)
    requires AsDesired(kept, xs, id)
    ensures FromList(kept, xs, id)
  {
    LastWinsKeys(xs, id);
  }

  /**
   * The loop after `n` entries. Whatever failed, kept items run on and only listed items run. Without
   * an error so far everything handled is running and only running IDs were repeated; if nothing stands
   * in the way, that is the only source of errors.
   */
  predicate Progress<T(==)>(
    kept: map<string, T>, xs: seq<T>, id: T -> string, n: nat, running: map<string, T>, clean: bool, feasible: bool)
    requires n <= |xs|
  {
    && Extends(kept, running) && FromList(running, xs, id)
    && (clean ==> running == Reached(kept, xs, id, n))
    && (clean ==> RepeatsOnly(xs, id, n, kept.Keys))
    && (feasible && RepeatsOnly(xs, id, n, kept.Keys) ==> clean)
  }

  lemma SeenBefore<T>(xs: seq<T>, id: T -> string, i: nat)
    requires i < |xs|
    ensures id(xs[i]) in LastWins(xs[..i], id) <==> exists k | 0 <= k < i :: id(xs[k]) == id(xs[i])
  {
    LastWinsKeys(xs[..i], id);
    if id(xs[i]) in LastWins(xs[..i], id) {
      var x :| x in xs[..i] && id(x) == id(xs[i]);
      var k :| 0 <= k < i && xs[k] == x;
    }
    if k :| 0 <= k < i && id(xs[k]) == id(xs[i]) {
      assert xs[k] in xs[..i];
    }
  }

  lemma RepeatsStep<T>(xs: seq<T>, id: T -> string, i: nat, settled: set<string>)
    requires i < |xs|
    ensures RepeatsOnly(xs, id, i + 1, settled)
       <==> RepeatsOnly(xs, id, i, settled) && (id(xs[i]) in settled || id(xs[i]) !in LastWins(xs[..i], id))
  {
    SeenBefore(xs, id, i);
  }

  /** An ID not yet running has a slot, if all desired items fit. */
  lemma RoomLeft<T>(kept: map<string, T>, xs: seq<T>, id: T -> string, i: nat)
    requires i < |xs| && AsDesired(kept, xs, id) && id(xs[i]) !in Reached(kept, xs, id, i)
    ensures |Reached(kept, xs, id, i)| < |LastWins(xs, id)|
  {
    LastWinsKeys(xs, id);
    LastWinsKeys(xs[..i], id);
    SubsetSize(Reached(kept, xs, id, i).Keys, LastWins(xs, id).Keys - {id(xs[i])});
  }

  lemma ProgressSkip<T>(
    kept: map<string, T>, xs: seq<T>, id: T -> string, i: nat, running: map<string, T>, clean: bool, feasible: bool)
    requires i < |xs| && id(xs[i]) in kept && Progress(kept, xs, id, i, running, clean, feasible)
    ensures Progress(kept, xs, id, i + 1, running, clean, feasible)
  {
    LastWinsSnoc(xs, i, id);
    RepeatsStep(xs, id, i, kept.Keys);
    assert Reached(kept, xs, id, i + 1) == Reached(kept, xs, id, i);
  }

  /** `ok`: the addition succeeded, which it does if its ID is free and nothing stands in the way. */
  lemma ProgressAdd<T>(
    kept: map<string, T>, xs: seq<T>, id: T -> string, i: nat, running: map<string, T>, clean: bool, feasible: bool,
    ok: bool)
    requires i < |xs| && id(xs[i]) !in kept && Progress(kept, xs, id, i, running, clean, feasible)
    requires ok ==> id(xs[i]) !in running
    requires feasible && clean && id(xs[i]) !in running ==> ok
    ensures Progress(kept, xs, id, i + 1, if ok then running[id(xs[i]) := xs[i]] else running, clean && ok, feasible)
  {
    LastWinsSnoc(xs, i, id);
    RepeatsStep(xs, id, i, kept.Keys);
    assert Reached(kept, xs, id, i + 1) == Reached(kept, xs, id, i)[id(xs[i]) := xs[i]];
    assert xs[i] in xs;
  }

  lemma ProgressStart<T>(kept: map<string, T>, xs: seq<T>, id: T -> string, feasible: bool)
    requires AsDesired(kept, xs, id)
    ensures Progress(kept, xs, id, 0, kept, true, feasible)
  {
    KeptFromList(kept, xs, id);
    assert Reached(kept, xs, id, 0) == kept;
  }

  lemma ProgressDone<T>(
    kept: map<string, T>, xs: seq<T>, id: T -> string, running: map<string, T>, clean: bool, feasible: bool)
    requires AsDesired(kept, xs, id) && Progress(kept, xs, id, |xs|, running, clean, feasible)
    ensures Extends(kept, running) && FromList(running, xs, id)
    ensures clean ==> running == LastWins(xs, id) && RepeatsOnly(xs, id, |xs|, kept.Keys)
    ensures feasible && RepeatsOnly(xs, id, |xs|, kept.Keys) ==> clean
  {
    assert xs[..|xs|] == xs;
    assert Reached(kept, xs, id, |xs|) == LastWins(xs, id);
  }
}
