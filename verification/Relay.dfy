/**
 * internal/bridge/relay.go: relay sessions, the address index used by the dispatch loop, and the
 * timers that expire sessions. Endpoints are compared by their textual form. A session's serial
 * number stands for its identity as an object; what has become of each object is kept in a list.
 * Removing a session is two steps: it leaves the maps under the lock, and is closed afterwards.
 */
module Relay {
  import opened Prelude

  datatype AddError = EmptyId | BadPeerA | BadPeerB | SameEndpoints | DuplicateId | MaxSessions

  datatype Session = Session(serial: nat, id: string, peerA: string, peerB: string)
  {
    predicate Has(addr: string)
    {
      addr == peerA || addr == peerB
    }

    /** The other endpoint; packets from elsewhere are dropped. */
    function Other(src: string): Option<string>
    {
      if src == peerA then Some(peerB) else if src == peerB then Some(peerA) else None
    }
  }

  type Sessions = map<string, Session>

  /** Live sessions under their own IDs, with two different endpoints. */
  predicate LiveOk(sessions: Sessions)
  {
    forall id | id in sessions :: sessions[id].id == id && sessions[id].peerA != sessions[id].peerB
  }

  /** Linked: in the maps. Pending: out of the maps, but its Close has not run. */
  datatype Status = Linked | Pending | Closed

  datatype Object = Object(id: string, status: Status)

  /** All sessions ever added; the serial is the position. */
  type Objects = seq<Object>

  /** The linked objects are exactly the live sessions. */
  predicate Accounted(sessions: Sessions, objects: Objects)
  {
    && (forall id | id in sessions ::
          sessions[id].serial < |objects| && objects[sessions[id].serial] == Object(id, Linked))
    && (forall n | 0 <= n < |objects| && objects[n].status == Linked ::
          objects[n].id in sessions && sessions[objects[n].id].serial == n)
  }

  /** Each index entry points to a live session that has the address as an endpoint. */
  predicate IndexSound(sessions: Sessions, index: Sessions)
  {
    forall a | a in index :: index[a].id in sessions && sessions[index[a].id] == index[a] && index[a].Has(a)
  }

  /** Both endpoints of every live session lead to it. */
  predicate IndexExact(sessions: Sessions, index: Sessions)
  {
    forall id | id in sessions ::
      && sessions[id].peerA in index && index[sessions[id].peerA] == sessions[id]
      && sessions[id].peerB in index && index[sessions[id].peerB] == sessions[id]
  }

  predicate OwnIds(sessions: Sessions)
  {
    forall id | id in sessions :: sessions[id].id == id
  }

  /** No live session has the address as an endpoint. */
  predicate Unclaimed(sessions: Sessions, addr: string)
  {
    forall id | id in sessions :: !sessions[id].Has(addr)
  }

  /** Why an addition is refused; the endpoints are None when resolution failed. */
  function Refusal(
    sessions: Sessions, max: int, id: string, peerA: Option<string>, peerB: Option<string>): (e: Option<AddError>)
    ensures e == None <==>
            id != "" && peerA.Some? && peerB.Some? && peerA != peerB && id !in sessions && |sessions| < max
  {
    if id == "" then Some(EmptyId)
    else if peerA == None then Some(BadPeerA)
    else if peerB == None then Some(BadPeerB)
    else if peerA == peerB then Some(SameEndpoints)
    else if id in sessions then Some(DuplicateId)
    else if |sessions| >= max then Some(MaxSessions)
    else None
  }

  datatype View = View(active: bool, sessions: Sessions, index: Sessions, next: nat)

  datatype Op =
    | StartOp(listenOk: bool)
    | AddOp(id: string, peerA: Option<string>, peerB: Option<string>)
    | RemoveOp(id: string)     // the locked part, by request or by an expiring timer
    | StopOp                   // the locked part
    | CloseOp(serial: nat)

  /** The addition of a session that is not refused. */
  function Added(v: View, id: string, peerA: string, peerB: string): View
  {
    var s := Session(v.next, id, peerA, peerB);
    v.(sessions := v.sessions[id := s], index := v.index[peerA := s][peerB := s], next := v.next + 1)
  }

  function Unlinked(v: View, id: string): View
  {
    if id !in v.sessions then v
    else v.(sessions := v.sessions - {id}, index := v.index - {v.sessions[id].peerA, v.sessions[id].peerB})
  }

  /** Where the run stands after an operation, given the session limit. */
  function Step(v: View, op: Op, max: int): View
  {
    match op
    case StartOp(listenOk) => v.(active := listenOk || v.active)
    case AddOp(id, peerA, peerB) =>
      if Refusal(v.sessions, max, id, peerA, peerB).Some? then v else Added(v, id, peerA.value, peerB.value)
    case RemoveOp(id) => Unlinked(v, id)
    case StopOp => if v.active then View(false, map[], map[], v.next) else v
    case CloseOp(_) => v
  }

  /** The object with this serial leaves the maps. */
  function UnlinkOne(objects: Objects, serial: nat): Objects
  {
    if serial < |objects| then objects[serial := objects[serial].(status := Pending)] else objects
  }

  function UnlinkLinked(objects: Objects): Objects
  {
    seq(|objects|, i requires 0 <= i < |objects| =>
      if objects[i].status == Linked then objects[i].(status := Pending) else objects[i])
  }

  /** Close on an object that has left the maps. */
  function CloseOne(objects: Objects, serial: nat): Objects
  {
    if serial < |objects| && objects[serial].status == Pending
    then objects[serial := objects[serial].(status := Closed)] else objects
  }

  function StepObjects(v: View, objects: Objects, op: Op, max: int): Objects
  {
    match op
    case StartOp(_) => objects
    case AddOp(id, peerA, peerB) =>
      if Refusal(v.sessions, max, id, peerA, peerB).Some? then objects else objects + [Object(id, Linked)]
    case RemoveOp(id) => if id in v.sessions then UnlinkOne(objects, v.sessions[id].serial) else objects
    case StopOp => if v.active then UnlinkLinked(objects) else objects
    case CloseOp(serial) => CloseOne(objects, serial)
  }

  predicate Sound(v: View, timers: set<string>, max: int)
  {
    && LiveOk(v.sessions)
    && IndexSound(v.sessions, v.index)
    && timers == v.sessions.Keys
    && (|v.sessions| == 0 || |v.sessions| <= max)
  }

  const EMPTY := View(false, map[], map[], 0)

  class Relay {
    const maxSessions: int
    var active: bool
    var sessions: Sessions
    var addrIndex: Sessions
    var timers: set<string>
    var objects: Objects

    constructor (maxSessions: int)
      ensures Valid() && State() == EMPTY && objects == [] && this.maxSessions == maxSessions
    {
      this.maxSessions := maxSessions;
      active, sessions, addrIndex, timers, objects := false, map[], map[], {}, [];
    }

    function State(): View
      reads this
    {
      View(active, sessions, addrIndex, |objects|)
    }

    predicate Valid()
      reads this
    {
      Sound(State(), timers, maxSessions) && Accounted(sessions, objects)
    }

    method Start(listenOk: bool)
      requires Valid()
      modifies this`active
      ensures Valid() && State() == old(State()).(active := listenOk || old(active))
    {
      if listenOk {
        active := true;
      }
    }

    /** `peerA` and `peerB` are the resolved endpoints, None when resolution failed. */
    method AddSession(id: string, peerA: Option<string>, peerB: Option<string>) returns (err: Option<AddError>)
      requires Valid()
      modifies this`sessions, this`addrIndex, this`timers, this`objects
      ensures Valid()
      ensures err == Refusal(old(sessions), maxSessions, id, peerA, peerB)
      ensures State() == if err.Some? then old(State())
                         else Added(old(State()), id, peerA.value, peerB.value)
      ensures objects == if err.Some? then old(objects) else old(objects) + [Object(id, Linked)]
    {
      if id == "" {
        return Some(EmptyId);
      }
      if peerA == None {
        return Some(BadPeerA);
      }
      if peerB == None {
        return Some(BadPeerB);
      }
      if peerA == peerB {
        return Some(SameEndpoints);
      }
      if id in sessions {
        return Some(DuplicateId);
      }
      if |sessions| >= maxSessions {
        return Some(MaxSessions);
      }
      Record(id, peerA.value, peerB.value);
      err := None;
    }

    method Record(id: string, peerA: string, peerB: string)
      requires Valid() && id !in sessions && peerA != peerB && |sessions| < maxSessions
      modifies this`sessions, this`addrIndex, this`timers, this`objects
      ensures Valid() && State() == Added(old(State()), id, peerA, peerB)
      ensures objects == old(objects) + [Object(id, Linked)]
    {
      var session := Session(|objects|, id, peerA, peerB);
      AddSound(State(), timers, maxSessions, id, peerA, peerB);
      AddAccounted(sessions, objects, session);
      objects := objects + [Object(id, Linked)];
      sessions := sessions[id := session];
      addrIndex := addrIndex[peerA := session][peerB := session];
      timers := timers + {id};
      assert State() == Added(old(State()), id, peerA, peerB);
    }

    /** What RemoveSession does under the lock: the session leaves the maps and its timer stops. */
    method Unlink(id: string) returns (session: Option<Session>)
      requires Valid()
      modifies this`sessions, this`addrIndex, this`timers, this`objects
      ensures Valid() && State() == Unlinked(old(State()), id)
      ensures objects == if id in old(sessions) then UnlinkOne(old(objects), old(sessions)[id].serial) else old(objects)
      ensures session == if id in old(sessions) then Some(old(sessions)[id]) else None
    {
      if id !in sessions {
        return None;
      }
      var s := sessions[id];
      UnlinkSound(State(), timers, maxSessions, id);
      UnlinkAccounted(sessions, objects, id);
      assert |UnlinkOne(objects, s.serial)| == |objects|;
      timers := timers - {id};
      addrIndex := addrIndex - {s.peerA, s.peerB};
      sessions := sessions - {id};
      objects := UnlinkOne(objects, s.serial);
      session := Some(s);
    }

    /** Closing a session that has left the maps. */
    method Close(serial: nat)
      requires Valid()
      modifies this`objects
      ensures Valid() && State() == old(State()) && objects == CloseOne(old(objects), serial)
    {
      CloseAccounted(sessions, objects, serial);
      objects := CloseOne(objects, serial);
    }

    /** Also what an expiring timer calls; here without interruption between the two steps. */
    method RemoveSession(id: string)
      requires Valid()
      modifies this`sessions, this`addrIndex, this`timers, this`objects
      ensures Valid() && State() == Unlinked(old(State()), id)
      ensures objects == if id !in old(sessions) then old(objects)
                         else old(objects)[old(sessions)[id].serial := Object(id, Closed)]
    {
      var session := Unlink(id);
      if session.Some? {
        Close(session.value.serial);
      }
    }

    /** What Stop does under the lock: every session leaves the maps. A relay that is not active is left alone. */
    method UnlinkAll() returns (live: Sessions)
      requires Valid()
      modifies this
      ensures Valid() && State() == Step(old(State()), StopOp, maxSessions)
      ensures objects == StepObjects(old(State()), old(objects), StopOp, maxSessions)
      ensures live == if old(active) then old(sessions) else map[]
    {
      live := map[];
      if active {
        live := sessions;
        active, timers, sessions, addrIndex := false, {}, map[], map[];
        objects := UnlinkLinked(objects);
      }
    }

    /** The whole of Stop without interruption: every session that was live ends closed, no other changes. */
    method Stop()
      requires Valid()
      modifies this
      ensures Valid() && State() == Step(old(State()), StopOp, maxSessions)
      ensures objects == if old(active) then ClosedExcept(old(objects), {}) else old(objects)
    {
      ghost var before, was := objects, active;
      var live := UnlinkAll();
      if was {
        assert ClosedExcept(before, live.Keys) == UnlinkLinked(before) by {
          NoneClosed(before, live);
        }
      }
      var todo := live.Keys;
      while todo != {}
        invariant Valid() && State() == Step(old(State()), StopOp, maxSessions) && todo <= live.Keys
        invariant objects == if was then ClosedExcept(before, todo) else before
        decreases |todo|
      {
        var id :| id in todo;
        CloseOneMore(before, live, todo, id);
        Close(live[id].serial);
        todo := todo - {id};
      }
    }

    /** The dispatch loop's lookup, under the read lock. */
    method Lookup(src: string) returns (session: Option<Session>)
      requires Valid()
      ensures session == if src in addrIndex then Some(addrIndex[src]) else None
      ensures session.Some? ==>
                && session.value.id in sessions && sessions[session.value.id] == session.value
                && session.value.Has(src) && session.value.serial < |objects|
                && objects[session.value.serial].status == Linked && session.value.peerA != session.value.peerB
    {
      session := if src in addrIndex then Some(addrIndex[src]) else None;
    }

    /** Forwarding happens after the lock is released; a session closed by then sends nothing. */
    method Forward(session: Session, src: string) returns (dst: Option<string>)
      requires session.serial < |objects|
      ensures dst == if objects[session.serial].status == Closed then None else session.Other(src)
    {
      if objects[session.serial].status == Closed {
        return None;
      }
      if src == session.peerA {
        return Some(session.peerB);
      }
      if src == session.peerB {
        return Some(session.peerA);
      }
      return None;
    }

    /** A packet that is looked up and forwarded without interruption. */
    method Dispatch(src: string) returns (dst: Option<string>)
      requires Valid()
      ensures src !in addrIndex ==> dst == None
      ensures src in addrIndex ==>
                var s := addrIndex[src];
                && s.id in sessions && sessions[s.id] == s
                && dst.Some? && dst.value != src && s.Has(src) && s.Has(dst.value)
    {
      var session := Lookup(src);
      if session == None {
        return None;
      }
      dst := Forward(session.value, src);
    }
  }

  /** The loop of Stop: the objects that were linked are closed, except those still to do. */
  function ClosedExcept(before: Objects, todo: set<string>): Objects
  {
    seq(|before|, i requires 0 <= i < |before| =>
      if before[i].status == Linked then Object(before[i].id, if before[i].id in todo then Pending else Closed)
      else before[i])
  }

  lemma NoneClosed(before: Objects, live: Sessions)
    requires Accounted(live, before)
    ensures ClosedExcept(before, live.Keys) == UnlinkLinked(before)
  {
  }

  lemma CloseOneMore(before: Objects, live: Sessions, todo: set<string>, id: string)
    requires Accounted(live, before) && id in todo && todo <= live.Keys
    ensures CloseOne(ClosedExcept(before, todo), live[id].serial) == ClosedExcept(before, todo - {id})
  {
  }

  // ----- Why the operations keep the relay sound -----

  lemma AddKeepsLive(sessions: Sessions, s: Session)
    requires LiveOk(sessions) && s.id !in sessions && s.peerA != s.peerB
    ensures LiveOk(sessions[s.id := s])
    ensures |sessions[s.id := s]| == |sessions| + 1 && sessions[s.id := s].Keys == sessions.Keys + {s.id}
  {
  }

  lemma AddKeepsSound(sessions: Sessions, index: Sessions, s: Session)
    requires IndexSound(sessions, index) && s.id !in sessions
    ensures IndexSound(sessions[s.id := s], index[s.peerA := s][s.peerB := s])
  {
  }

  lemma UnlinkKeepsLive(sessions: Sessions, id: string)
    requires LiveOk(sessions) && id in sessions
    ensures LiveOk(sessions - {id})
    ensures |sessions - {id}| < |sessions| && (sessions - {id}).Keys == sessions.Keys - {id}
  {
  }

  /** Entries for the removed session sit only at its own endpoints. */
  lemma UnlinkKeepsSound(sessions: Sessions, index: Sessions, id: string)
    requires IndexSound(sessions, index) && id in sessions
    ensures IndexSound(sessions - {id}, index - {sessions[id].peerA, sessions[id].peerB})
  {
  }

  lemma AddSound(v: View, timers: set<string>, max: int, id: string, peerA: string, peerB: string)
    requires Sound(v, timers, max) && id !in v.sessions && peerA != peerB && |v.sessions| < max
    ensures Sound(Added(v, id, peerA, peerB), timers + {id}, max)
  {
    var s := Session(v.next, id, peerA, peerB);
    AddKeepsLive(v.sessions, s);
    AddKeepsSound(v.sessions, v.index, s);
  }

  lemma UnlinkSound(v: View, timers: set<string>, max: int, id: string)
    requires Sound(v, timers, max) && id in v.sessions
    ensures Sound(Unlinked(v, id), timers - {id}, max)
  {
    UnlinkKeepsLive(v.sessions, id);
    UnlinkKeepsSound(v.sessions, v.index, id);
  }

  lemma AddAccounted(sessions: Sessions, objects: Objects, s: Session)
    requires Accounted(sessions, objects) && s.id !in sessions && s.serial == |objects|
    ensures Accounted(sessions[s.id := s], objects + [Object(s.id, Linked)])
  {
  }

  /** Serials are unique, so unlinking one session leaves the others live. */
  lemma UnlinkAccounted(sessions: Sessions, objects: Objects, id: string)
    requires Accounted(sessions, objects) && id in sessions
    ensures Accounted(sessions - {id}, UnlinkOne(objects, sessions[id].serial))
  {
  }

  lemma CloseAccounted(sessions: Sessions, objects: Objects, serial: nat)
    requires Accounted(sessions, objects)
    ensures Accounted(sessions, CloseOne(objects, serial))
  {
  }

  // ----- When the index is exact -----

  /**
   * Adding a session to an exact index keeps it exact exactly when neither endpoint is claimed by a
   * live session; otherwise the older session loses its entry.
   */
  lemma AddKeepsExactIff(sessions: Sessions, index: Sessions, s: Session)
    requires IndexExact(sessions, index) && s.id !in sessions
    requires OwnIds(sessions)
    ensures IndexExact(sessions[s.id := s], index[s.peerA := s][s.peerB := s])
       <==> Unclaimed(sessions, s.peerA) && Unclaimed(sessions, s.peerB)
  {
    var all, idx := sessions[s.id := s], index[s.peerA := s][s.peerB := s];
    forall id | id in sessions
      ensures all[id] == sessions[id] && sessions[id] != s
    {
    }
    if IndexExact(all, idx) {
      forall id | id in sessions
        ensures !sessions[id].Has(s.peerA) && !sessions[id].Has(s.peerB)
      {
        assert idx[all[id].peerA] == sessions[id] && idx[all[id].peerB] == sessions[id];
      }
    }
  }

  /** Removing a session from an exact index keeps it exact. */
  lemma RemoveKeepsExact(sessions: Sessions, index: Sessions, id: string)
    requires IndexExact(sessions, index) && id in sessions
    requires OwnIds(sessions)
    ensures IndexExact(sessions - {id}, index - {sessions[id].peerA, sessions[id].peerB})
  {
  }

  // ----- Whole runs -----

  /** The relay after the first `n` operations. */
  function At(v: View, ops: seq<Op>, max: int, n: nat): View
    requires n <= |ops|
  {
    if n == 0 then v else Step(At(v, ops, max, n - 1), ops[n - 1], max)
  }

  /** An addition that goes through claims no endpoint of a live session. */
  predicate ClaimsFresh(v: View, op: Op, max: int)
  {
    op.AddOp? && Refusal(v.sessions, max, op.id, op.peerA, op.peerB) == None ==>
      Unclaimed(v.sessions, op.peerA.value) && Unclaimed(v.sessions, op.peerB.value)
  }

  predicate Exact(v: View)
  {
    IndexExact(v.sessions, v.index)
  }

  lemma {:induction false} RunsUnderOwnIds(v: View, ops: seq<Op>, max: int, n: nat)
    requires n <= |ops| && OwnIds(v.sessions)
    ensures OwnIds(At(v, ops, max, n).sessions)
  {
    if n == 0 {
    } else {
      RunsUnderOwnIds(v, ops, max, n - 1);
    }
  }

  /** From an exact index, a step keeps exactness exactly when it claims no endpoint of a live session. */
  lemma StepKeepsExactIff(v: View, op: Op, max: int)
    requires Exact(v) && OwnIds(v.sessions)
    ensures Exact(Step(v, op, max)) <==> ClaimsFresh(v, op, max)
  {
    if op.AddOp? && Refusal(v.sessions, max, op.id, op.peerA, op.peerB) == None {
      AddKeepsExactIff(v.sessions, v.index, Session(v.next, op.id, op.peerA.value, op.peerB.value));
    } else if op.RemoveOp? && op.id in v.sessions {
      RemoveKeepsExact(v.sessions, v.index, op.id);
    }
  }

  lemma {:induction false} ExactWhileFresh(v: View, ops: seq<Op>, max: int, n: nat)
    requires n <= |ops| && Exact(v) && OwnIds(v.sessions)
    requires forall i | 0 <= i < n :: ClaimsFresh(At(v, ops, max, i), ops[i], max)
    ensures Exact(At(v, ops, max, n))
  {
    if n == 0 {
    } else {
      ExactWhileFresh(v, ops, max, n - 1);
      RunsUnderOwnIds(v, ops, max, n - 1);
      StepKeepsExactIff(At(v, ops, max, n - 1), ops[n - 1], max);
    }
  }

  lemma FreshWhileExact(v: View, ops: seq<Op>, max: int, n: nat)
    requires n < |ops| && OwnIds(v.sessions) && Exact(At(v, ops, max, n)) && Exact(At(v, ops, max, n + 1))
    ensures ClaimsFresh(At(v, ops, max, n), ops[n], max)
  {
    RunsUnderOwnIds(v, ops, max, n);
    StepKeepsExactIff(At(v, ops, max, n), ops[n], max);
  }

  /** In every state of the run, both endpoints of every live session lead to it. */
  predicate ExactThroughout(v: View, ops: seq<Op>, max: int)
  {
    forall n | 0 <= n <= |ops| :: Exact(At(v, ops, max, n))
  }

  /** Each addition that went through found both its endpoints unclaimed at that moment. */
  predicate FreshThroughout(v: View, ops: seq<Op>, max: int)
  {
    forall n | 0 <= n < |ops| :: ClaimsFresh(At(v, ops, max, n), ops[n], max)
  }

  lemma ExactImpliesFresh(v: View, ops: seq<Op>, max: int)
    requires OwnIds(v.sessions) && ExactThroughout(v, ops, max)
    ensures FreshThroughout(v, ops, max)
  {
    forall n | 0 <= n < |ops|
      ensures ClaimsFresh(At(v, ops, max, n), ops[n], max)
    {
      FreshWhileExact(v, ops, max, n);
    }
  }

  lemma FreshImpliesExact(v: View, ops: seq<Op>, max: int)
    requires Exact(v) && OwnIds(v.sessions) && FreshThroughout(v, ops, max)
    ensures ExactThroughout(v, ops, max)
  {
    forall n | 0 <= n <= |ops|
      ensures Exact(At(v, ops, max, n))
    {
      ExactWhileFresh(v, ops, max, n);
    }
  }

  /**
   * Over any run from an exact index, such as the empty one, the index is exact throughout exactly when
   * no addition that went through claimed an endpoint of a session then live. Endpoints freed by a
   * removal or an expiry may be assigned again, under any ID.
   */
  lemma ExactThroughoutIff(v: View, ops: seq<Op>, max: int)
    requires Exact(v) && OwnIds(v.sessions)
    ensures ExactThroughout(v, ops, max) <==> FreshThroughout(v, ops, max)
  {
    if ExactThroughout(v, ops, max) {
      ExactImpliesFresh(v, ops, max);
    }
    if FreshThroughout(v, ops, max) {
      FreshImpliesExact(v, ops, max);
    }
  }

  /** No two live sessions share an endpoint. */
  predicate DisjointLive(sessions: Sessions)
  {
    forall i, j | i in sessions && j in sessions && i != j ::
      !sessions[i].Has(sessions[j].peerA) && !sessions[i].Has(sessions[j].peerB)
  }

  /**
   * Disjoint live endpoints are not enough: once a second session has claimed an endpoint and is
   * gone again, the first one is alone but no packet from that endpoint reaches it.
   */
  lemma RemovedClaimLeavesGap(a: string, b: string, c: string)
    requires a != b && b != c && a != c
    ensures var ops := [AddOp("1", Some(a), Some(b)), AddOp("2", Some(b), Some(c)), RemoveOp("2")];
            var v := At(EMPTY, ops, 2, 3);
            && v.sessions.Keys == {"1"} && v.sessions["1"].Has(b) && DisjointLive(v.sessions)
            && b !in v.index && !Exact(v)
  {
    var ops := [AddOp("1", Some(a), Some(b)), AddOp("2", Some(b), Some(c)), RemoveOp("2")];
    var s1, s2 := Session(0, "1", a, b), Session(1, "2", b, c);
    assert At(EMPTY, ops, 2, 1) == View(false, map["1" := s1], map[a := s1, b := s1], 1);
    assert At(EMPTY, ops, 2, 2) == View(false, map["1" := s1, "2" := s2], map[a := s1, b := s2, c := s2], 2);
    assert At(EMPTY, ops, 2, 3) == View(false, map["1" := s1], map[a := s1], 2);
  }

  method Apply(r: Relay, op: Op)
    requires r.Valid()
    modifies r
    ensures r.Valid() && r.State() == Step(old(r.State()), op, r.maxSessions)
    ensures r.objects == StepObjects(old(r.State()), old(r.objects), op, r.maxSessions)
  {
    match op
    case StartOp(listenOk) =>
      r.Start(listenOk);
    case AddOp(id, peerA, peerB) =>
      var _ := r.AddSession(id, peerA, peerB);
    case RemoveOp(id) =>
      var _ := r.Unlink(id);
    case StopOp =>
      var _ := r.UnlinkAll();
    case CloseOp(serial) =>
      r.Close(serial);
  }

  function ObjectsAt(v: View, objects: Objects, ops: seq<Op>, max: int, n: nat): Objects
    requires n <= |ops|
  {
    if n == 0 then objects
    else StepObjects(At(v, ops, max, n - 1), ObjectsAt(v, objects, ops, max, n - 1), ops[n - 1], max)
  }

  /**
   * Every reachable state is valid, so an indexed packet goes only to the other endpoint of a live
   * session, and every session ever added is live, pending or closed; and the relay ends in the state
   * the lemmas speak about.
   */
  method Run(r: Relay, ops: seq<Op>)
    requires r.Valid()
    modifies r
    ensures r.Valid() && r.State() == At(old(r.State()), ops, r.maxSessions, |ops|)
    ensures r.objects == ObjectsAt(old(r.State()), old(r.objects), ops, r.maxSessions, |ops|)
  {
    ghost var v, objects := r.State(), r.objects;
    for i := 0 to |ops|
      invariant r.Valid() && r.State() == At(v, ops, r.maxSessions, i)
      invariant r.objects == ObjectsAt(v, objects, ops, r.maxSessions, i)
    {
      Apply(r, ops[i]);
    }
  }

  // ----- Packets on their way while sessions are removed -----

  /** The operation is the Close of this session, which has left the maps before. */
  predicate Closes(objects: Objects, op: Op, serial: nat)
  {
    op == CloseOp(serial) && serial < |objects| && objects[serial].status == Pending
  }

  /** One of the first `n` operations is the session's Close. */
  predicate ClosedWithin(v: View, objects: Objects, ops: seq<Op>, max: int, n: nat, serial: nat)
    requires n <= |ops|
  {
    n > 0 && (|| ClosedWithin(v, objects, ops, max, n - 1, serial)
              || Closes(ObjectsAt(v, objects, ops, max, n - 1), ops[n - 1], serial))
  }

  predicate IsClosed(objects: Objects, serial: nat)
  {
    serial < |objects| && objects[serial].status == Closed
  }

  /** An unlinking never hits a closed object, because live sessions are linked. */
  lemma StepCloses(v: View, objects: Objects, op: Op, max: int, serial: nat)
    requires Accounted(v.sessions, objects)
    ensures IsClosed(StepObjects(v, objects, op, max), serial)
       <==> IsClosed(objects, serial) || Closes(objects, op, serial)
  {
  }

  lemma StepAccounted(v: View, objects: Objects, op: Op, max: int)
    requires Accounted(v.sessions, objects) && v.next == |objects|
    ensures Accounted(Step(v, op, max).sessions, StepObjects(v, objects, op, max))
    ensures Step(v, op, max).next == |StepObjects(v, objects, op, max)| >= |objects|
  {
    match op
    case StartOp(_) =>
    case AddOp(id, peerA, peerB) =>
      if Refusal(v.sessions, max, id, peerA, peerB) == None {
        AddAccounted(v.sessions, objects, Session(v.next, id, peerA.value, peerB.value));
      }
    case RemoveOp(id) =>
      if id in v.sessions {
        UnlinkAccounted(v.sessions, objects, id);
      }
    case StopOp =>
    case CloseOp(serial) =>
      CloseAccounted(v.sessions, objects, serial);
  }

  lemma {:induction false} RunAccounted(v: View, objects: Objects, ops: seq<Op>, max: int, n: nat)
    requires n <= |ops| && Accounted(v.sessions, objects) && v.next == |objects|
    ensures Accounted(At(v, ops, max, n).sessions, ObjectsAt(v, objects, ops, max, n))
    ensures At(v, ops, max, n).next == |ObjectsAt(v, objects, ops, max, n)| >= |objects|
  {
    if n == 0 {
    } else {
      RunAccounted(v, objects, ops, max, n - 1);
      StepAccounted(At(v, ops, max, n - 1), ObjectsAt(v, objects, ops, max, n - 1), ops[n - 1], max);
    }
  }

  lemma ClosedStep(v: View, objects: Objects, ops: seq<Op>, max: int, n: nat, serial: nat)
    requires n < |ops| && Accounted(v.sessions, objects) && v.next == |objects|
    ensures IsClosed(ObjectsAt(v, objects, ops, max, n + 1), serial)
       <==> || IsClosed(ObjectsAt(v, objects, ops, max, n), serial)
            || Closes(ObjectsAt(v, objects, ops, max, n), ops[n], serial)
  {
    RunAccounted(v, objects, ops, max, n);
    StepCloses(At(v, ops, max, n), ObjectsAt(v, objects, ops, max, n), ops[n], max, serial);
  }

  /** A session is closed by its Close and by nothing else. */
  lemma {:induction false} ClosedIff(v: View, objects: Objects, ops: seq<Op>, max: int, n: nat, serial: nat)
    requires n <= |ops| && Accounted(v.sessions, objects) && v.next == |objects| && !IsClosed(objects, serial)
    ensures IsClosed(ObjectsAt(v, objects, ops, max, n), serial) <==> ClosedWithin(v, objects, ops, max, n, serial)
  {
    if n == 0 {
    } else {
      ClosedIff(v, objects, ops, max, n - 1, serial);
      ClosedStep(v, objects, ops, max, n - 1, serial);
    }
  }

  /**
   * A packet is looked up under the lock and forwarded after it is released; other operations may
   * come in between. It is then sent, to the other endpoint, exactly if the session's Close has not run
   * in between; the session may have left the maps by then.
   */
  method DispatchAround(r: Relay, src: string, between: seq<Op>)
    returns (found: Option<Session>, dst: Option<string>)
    requires r.Valid()
    modifies r
    ensures r.Valid() && r.State() == At(old(r.State()), between, r.maxSessions, |between|)
    ensures found == if src in old(r.addrIndex) then Some(old(r.addrIndex)[src]) else None
    ensures found == None ==> dst == None
    ensures found.Some? ==>
              var s := found.value;
              dst == if ClosedWithin(old(r.State()), old(r.objects), between, r.maxSessions, |between|, s.serial)
                     then None else s.Other(src)
    ensures dst.Some? ==> dst.value != src && found.value.Has(src) && found.value.Has(dst.value)
  {
    ghost var v, objects := r.State(), r.objects;
    found := r.Lookup(src);
    Run(r, between);
    if found == None {
      return None, None;
    }
    ClosedIff(v, objects, between, r.maxSessions, |between|, found.value.serial);
    RunAccounted(v, objects, between, r.maxSessions, |between|);
    dst := r.Forward(found.value, src);
  }

  /** A session that has left the maps goes on sending until it is closed. */
  lemma RemovedStillSends(v: View, objects: Objects, max: int, id: string)
    requires id in v.sessions
    ensures id !in At(v, [RemoveOp(id)], max, 1).sessions
    ensures !ClosedWithin(v, objects, [RemoveOp(id)], max, 1, v.sessions[id].serial)
  {
  }
}
