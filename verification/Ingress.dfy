/**
 * internal/bridge/ingress.go and ingress_handler.go: the rules and listeners of the ingress manager
 * and its reconcile handler. Opening and closing a listener may fail; certificates load or do not.
 */
module Ingress {
  import opened Prelude
  import opened DesiredState

  datatype Rule = Rule(
    id: string, listenPort: int, targetAddr: string, mode: string, certPEM: string, keyPEM: string)

  datatype AddError = Inactive | AlreadyExists | MaxRules | BadCertificate | ListenFailed

  /** The listeners of the active rules; a listener is known by the number of the call that opened it. */
  function Listeners(handles: map<string, nat>): set<nat>
  {
    set id | id in handles :: handles[id]
  }

  predicate DistinctHandles(handles: map<string, nat>, next: nat)
  {
    && (forall id | id in handles :: handles[id] < next)
    && (forall x, y | x in handles && y in handles && x != y :: handles[x] != handles[y])
  }

  lemma OpenOneMore(handles: map<string, nat>, id: string, n: nat)
    requires id !in handles && DistinctHandles(handles, n)
    ensures DistinctHandles(handles[id := n], n + 1)
    ensures Listeners(handles[id := n]) == Listeners(handles) + {n}
  {
    var more := handles[id := n];
    forall h | h in Listeners(handles) + {n}
      ensures h in Listeners(more)
    {
      if h == n {
        assert id in more && more[id] == n;
      } else {
        var k :| k in handles && handles[k] == h;
        assert k in more && more[k] == h;
      }
    }
  }

  lemma CloseOne(handles: map<string, nat>, next: nat, id: string)
    requires id in handles && DistinctHandles(handles, next)
    ensures DistinctHandles(handles - {id}, next)
    ensures Listeners(handles - {id}) == Listeners(handles) - {handles[id]}
  {
    var rest := handles - {id};
    forall h | h in Listeners(handles) - {handles[id]}
      ensures h in Listeners(rest)
    {
      var k :| k in handles && handles[k] == h;
      assert k in rest && rest[k] == h;
    }
  }

  class IngressManager {
    const enabled: bool
    const maxRules: int
    const certLoads: Rule -> bool
    const listenFault: nat -> bool
    const closeFault: nat -> bool
    var listens: nat
    var open: set<nat>
    var active: bool
    var rules: map<string, Rule>
    var handles: map<string, nat>

    constructor (
      enabled: bool, maxRules: int, certLoads: Rule -> bool, listenFault: nat -> bool, closeFault: nat -> bool)
      ensures this.enabled == enabled && this.maxRules == maxRules && this.certLoads == certLoads
      ensures this.listenFault == listenFault && this.closeFault == closeFault
      ensures Valid() && !active && rules == map[] && open == {} && LeakFree()
    {
      this.enabled, this.maxRules, this.certLoads := enabled, maxRules, certLoads;
      this.listenFault, this.closeFault := listenFault, closeFault;
      listens, open, active, rules, handles := 0, {}, false, map[], map[];
    }

    /** Every active rule has its own listener. */
    predicate Valid()
      reads this
    {
      && handles.Keys == rules.Keys && DistinctHandles(handles, listens)
      && (!active ==> rules == map[])
    }

    /** The open listeners are exactly those of the active rules. */
    predicate LeakFree()
      reads this
    {
      open == Listeners(handles)
    }

    ghost predicate CloseWorks()
    {
      forall n: nat :: !closeFault(n)
    }

    method Setup()
      requires Valid()
      modifies this`active
      ensures Valid() && active == (enabled || old(active))
    {
      if enabled {
        active := true;
      }
    }

    /** Closing a listener may fail; it then stays open. */
    method Close(handle: nat) returns (ok: bool)
      modifies this`open
      ensures ok == !closeFault(handle)
      ensures open == if ok then old(open) - {handle} else old(open)
    {
      ok := !closeFault(handle);
      if ok {
        open := open - {handle};
      }
    }

    /** The listeners among these that can be closed. */
    function Closable(handles: map<string, nat>): set<nat>
    {
      set id | id in handles && !closeFault(handles[id]) :: handles[id]
    }

    lemma CloseOneMore(done: map<string, nat>, id: string, h: nat)
      requires id !in done
      ensures Closable(done[id := h]) == if closeFault(h) then Closable(done) else Closable(done) + {h}
    {
      var more := done[id := h];
      forall n | n in Closable(done)
        ensures n in Closable(more)
      {
        var k :| k in done && !closeFault(done[k]) && done[k] == n;
        assert k in more && more[k] == n;
      }
      if !closeFault(h) {
        assert id in more && more[id] == h;
      }
    }

    /** Errors are collected and never stop the loop; `failed` holds the rules whose listener stayed open. */
    method CloseAll() returns (failed: set<string>)
      modifies this`open
      ensures failed == set id | id in handles && closeFault(handles[id])
      ensures open == old(open) - Closable(handles)
    {
      failed := {};
      var todo := handles.Keys;
      ghost var done: map<string, nat> := map[];
      while todo != {}
        invariant todo <= handles.Keys && done == handles - todo
        invariant failed == set id | id in done && closeFault(done[id])
        invariant open == old(open) - Closable(done)
        decreases |todo|
      {
        var id :| id in todo;
        CloseOneMore(done, id, handles[id]);
        var ok := Close(handles[id]);
        todo, done := todo - {id}, done[id := handles[id]];
        if !ok {
          failed := failed + {id};
        }
      }
      assert done == handles;
    }

    method Teardown() returns (failed: set<string>)
      requires Valid()
      modifies this`open, this`active, this`rules, this`handles
      ensures Valid() && !active && rules == map[]
      ensures failed == set id | id in old(handles) && closeFault(old(handles)[id])
      ensures open == old(open) - Closable(old(handles))
      ensures CloseWorks() && old(LeakFree()) ==> open == {} && LeakFree()
    {
      if !active {
        return {};
      }
      failed := CloseAll();
      active, rules, handles := false, map[], map[];
    }

    predicate CertificateOk(r: Rule)
    {
      r.mode == "terminate" ==> certLoads(r)
    }

    /** A rule is recorded only once its certificate has loaded and its listener is open. */
    method AddRule(r: Rule) returns (err: Option<AddError>)
      requires Valid()
      modifies this`rules, this`listens, this`open, this`handles
      ensures Valid()
      ensures rules == if err == None then old(rules)[r.id := r] else old(rules)
      ensures err ==
              if !active then Some(Inactive)
              else if r.id in old(rules) then Some(AlreadyExists)
              else if |old(rules)| >= maxRules then Some(MaxRules)
              else if !CertificateOk(r) then Some(BadCertificate)
              else if listenFault(old(listens)) then Some(ListenFailed)
              else None
      ensures listens == old(listens) + if err in {None, Some(ListenFailed)} then 1 else 0
      ensures handles == if err == None then old(handles)[r.id := old(listens)] else old(handles)
      ensures open == if err == None then old(open) + {old(listens)} else old(open)
      ensures old(LeakFree()) ==> LeakFree()
    {
      if !active {
        return Some(Inactive);
      }
      if r.id in rules {
        return Some(AlreadyExists);
      }
      if |rules| >= maxRules {
        return Some(MaxRules);
      }
      if r.mode == "terminate" && !certLoads(r) {
        return Some(BadCertificate);
      }
      var failed := listenFault(listens);
      listens := listens + 1;
      if failed {
        return Some(ListenFailed);
      }
      Record(r, listens - 1);
      err := None;
    }

    method Record(r: Rule, handle: nat)
      requires active && r.id !in rules && handles.Keys == rules.Keys
      requires listens == handle + 1 && DistinctHandles(handles, handle)
      modifies this`rules, this`open, this`handles
      ensures Valid() && rules == old(rules)[r.id := r] && handles == old(handles)[r.id := handle]
      ensures open == old(open) + {handle}
      ensures old(LeakFree()) ==> LeakFree()
    {
      OpenOneMore(handles, r.id, handle);
      open := open + {handle};
      rules, handles := rules[r.id := r], handles[r.id := handle];
    }

    method RemoveRule(id: string)
      requires Valid()
      modifies this`rules, this`handles, this`open
      ensures Valid() && rules == old(rules) - {id} && handles == old(handles) - {id}
      ensures open == if id in old(handles) && !closeFault(old(handles)[id]) then old(open) - {old(handles)[id]}
                      else old(open)
      ensures CloseWorks() && old(LeakFree()) ==> LeakFree()
    {
      if active && id in rules {
        var handle := handles[id];
        CloseOne(handles, listens, id);
        rules, handles := rules - {id}, handles - {id};
        var _ := Close(handle);
      } else {
        assert handles - {id} == handles;
      }
    }

    /** The IDs come in no particular order and without repetition. */
    method RuleIDs() returns (ids: set<string>)
      ensures ids == rules.Keys
    {
      ids := rules.Keys;
    }
  }

  function IdOf(r: Rule): string
  {
    r.id
  }

  function Desired(list: seq<Rule>): map<string, Rule>
  {
    LastWins(list, IdOf)
  }

  /** Nothing stands in the way of the additions: an active manager, room, certificates, listeners. */
  ghost predicate Feasible(m: IngressManager, list: seq<Rule>)
    reads m`active
  {
    && m.active
    && |Desired(list)| <= m.maxRules
    && (forall r | r in list :: m.CertificateOk(r))
    && (forall n: nat :: !m.listenFault(n))
  }

  /** The removal loop with the rules in `pending` still to be looked at. */
  ghost predicate Pruning(
    m: IngressManager, desired: map<string, Rule>, all: map<string, Rule>, pending: set<string>, current: set<string>)
    reads m
  {
    && m.Valid() && pending <= all.Keys
    && m.rules == Pruned(all, desired, pending)
    && Marks(current, desired, m.rules)
  }

  /** One iteration of the removal loop. */
  method PruneOne(
    m: IngressManager, desired: map<string, Rule>, id: string, current: set<string>,
    ghost all: map<string, Rule>, ghost pending: set<string>)
    returns (current': set<string>)
    requires id in pending && Pruning(m, desired, all, pending, current)
    modifies m`rules, m`handles, m`open
    ensures Pruning(m, desired, all, pending - {id}, current')
    ensures all == desired ==> m.open == old(m.open)
    ensures m.CloseWorks() && old(m.LeakFree()) ==> m.LeakFree()
  {
    PruneStep(all, desired, pending, id);
    current' := current;
    if id !in desired {
      m.RemoveRule(id);
    } else if m.rules[id] != desired[id] {
      m.RemoveRule(id);
      current' := current - {id};
    }
  }

  /** Stale and changed rules go; changed ones are marked for re-adding. */
  method RemoveOutdated(m: IngressManager, desired: map<string, Rule>) returns (current: set<string>)
    requires m.Valid()
    modifies m`rules, m`handles, m`open
    ensures m.Valid() && m.rules == Kept(old(m.rules), desired)
    ensures Marks(current, desired, m.rules)
    ensures old(m.rules) == desired ==> m.open == old(m.open)
    ensures m.CloseWorks() && old(m.LeakFree()) ==> m.LeakFree()
  {
    ghost var all := m.rules;
    var ids := m.RuleIDs();
    current := ids;
    assert Pruned(all, desired, ids) == all;
    while ids != {}
      invariant Pruning(m, desired, all, ids, current)
      invariant all == desired ==> m.open == old(m.open)
      invariant m.CloseWorks() && old(m.LeakFree()) ==> m.LeakFree()
      decreases |ids|
    {
      var id :| id in ids;
      current := PruneOne(m, desired, id, current, all, ids);
      ids := ids - {id};
    }
    assert Pruned(all, desired, {}) == Kept(all, desired);
  }

  /** The addition loop after `i` entries. */
  ghost predicate Adding(
    m: IngressManager, list: seq<Rule>, i: nat, current: set<string>, clean: bool,
    kept: map<string, Rule>, feasible: bool)
    requires i <= |list|
    reads m
  {
    && m.Valid() && AsDesired(kept, list, IdOf) && Marks(current, Desired(list), kept)
    && feasible == Feasible(m, list)
    && Progress(kept, list, IdOf, i, m.rules, clean, feasible)
  }

  /** One iteration of the addition loop: entries marked as running are skipped. */
  method AddOne(
    m: IngressManager, list: seq<Rule>, i: nat, current: set<string>, errs: seq<AddError>,
    ghost kept: map<string, Rule>, ghost feasible: bool)
    returns (errs': seq<AddError>)
    requires i < |list| && Adding(m, list, i, current, errs == [], kept, feasible)
    modifies m`rules, m`listens, m`open, m`handles
    ensures Adding(m, list, i + 1, current, errs' == [], kept, feasible)
    ensures kept == Desired(list) ==> errs' == errs && m.listens == old(m.listens) && m.open == old(m.open)
    ensures old(m.LeakFree()) ==> m.LeakFree()
  {
    LastWinsHas(list, IdOf, i);
    ghost var running, clean := m.rules, errs == [];
    if list[i].id in current {
      ProgressSkip(kept, list, IdOf, i, running, clean, feasible);
      return errs;
    }
    if clean && list[i].id !in running {
      RoomLeft(kept, list, IdOf, i);
    }
    var err := m.AddRule(list[i]);
    ProgressAdd(kept, list, IdOf, i, running, clean, feasible, err == None);
    errs' := if err.Some? then errs + [err.value] else errs;
  }

  /** The addition loop. */
  method AddAll(
    m: IngressManager, list: seq<Rule>, current: set<string>, ghost kept: map<string, Rule>, ghost feasible: bool)
    returns (errs: seq<AddError>)
    requires Adding(m, list, 0, current, true, kept, feasible)
    modifies m`rules, m`listens, m`open, m`handles
    ensures Adding(m, list, |list|, current, errs == [], kept, feasible)
    ensures kept == Desired(list) ==> errs == [] && m.listens == old(m.listens) && m.open == old(m.open)
    ensures old(m.LeakFree()) ==> m.LeakFree()
  {
    errs := [];
    for i := 0 to |list|
      invariant Adding(m, list, i, current, errs == [], kept, feasible)
      invariant kept == Desired(list) ==> errs == [] && m.listens == old(m.listens) && m.open == old(m.open)
      invariant old(m.LeakFree()) ==> m.LeakFree()
    {
      errs := AddOne(m, list, i, current, errs, kept, feasible);
    }
  }

  /** Adds what is missing; with no error the map has become the desired one. */
  method AddMissing(m: IngressManager, list: seq<Rule>, current: set<string>) returns (errs: seq<AddError>)
    requires m.Valid() && AsDesired(m.rules, list, IdOf)
    requires Marks(current, Desired(list), m.rules)
    modifies m`rules, m`listens, m`open, m`handles
    ensures m.Valid() && Extends(old(m.rules), m.rules) && FromList(m.rules, list, IdOf)
    ensures errs == [] ==> m.rules == Desired(list) && RepeatsOnly(list, IdOf, |list|, old(m.rules).Keys)
    ensures Feasible(m, list) ==> (errs == [] <==> RepeatsOnly(list, IdOf, |list|, old(m.rules).Keys))
    ensures old(m.rules) == Desired(list) ==> errs == [] && m.listens == old(m.listens) && m.open == old(m.open)
    ensures old(m.LeakFree()) ==> m.LeakFree()
  {
    ghost var kept, feasible := m.rules, Feasible(m, list);
    ProgressStart(kept, list, IdOf, feasible);
    errs := AddAll(m, list, current, kept, feasible);
    ProgressDone(kept, list, IdOf, m.rules, errs == [], feasible);
  }

  /**
   * The reconcile handler. A nil result means the running rules are exactly the desired ones, last
   * occurrence winning, and that every repeated ID was already running as desired; any other repetition
   * is an error. When nothing stands in the way, nothing else is. When all of the desired rules run, no
   * listener is touched. While closing works, the open listeners stay exactly those of the running rules.
   */
  method Reconcile(m: IngressManager, desired: Option<seq<Rule>>) returns (errs: seq<AddError>)
    requires m.Valid()
    modifies m`rules, m`listens, m`open, m`handles
    ensures m.Valid()
    ensures desired == None ==> errs == [] && m.rules == old(m.rules) && m.listens == old(m.listens)
    ensures desired.Some? ==>
              Extends(Kept(old(m.rules), Desired(desired.value)), m.rules) && FromList(m.rules, desired.value, IdOf)
    ensures desired.Some? ==>
              var list := desired.value;
              var settled := RepeatsOnly(list, IdOf, |list|, Kept(old(m.rules), Desired(list)).Keys);
              && (errs == [] ==> m.rules == Desired(list) && settled)
              && (Feasible(m, list) && settled ==> errs == [])
    ensures desired.Some? && old(m.rules) == Desired(desired.value) ==>
              errs == [] && m.rules == old(m.rules) && m.listens == old(m.listens) && m.open == old(m.open)
    ensures m.CloseWorks() && old(m.LeakFree()) ==> m.LeakFree()
  {
    if desired == None {
      return [];
    }
    var desiredSet := ReadAsMap(desired.value, IdOf);
    assert Kept(desiredSet, desiredSet) == desiredSet;
    var current := RemoveOutdated(m, desiredSet);
    errs := AddMissing(m, desired.value, current);
  }
}
