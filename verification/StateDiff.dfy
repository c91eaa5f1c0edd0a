/** internal/reconcile/diff.go: the drift between desired and current state. */
module StateDiff {
  import opened Prelude
  import opened Api
  import opened DesiredState
  import opened Strings

  datatype SigningKeys = SigningKeys(current: string, previous: string, transitionExpires: Option<int>)

  datatype DataEntry = DataEntry(key: string, contentType: string, payload: string, version: int, updatedAt: int)

  datatype SecretRef = SecretRef(key: string, version: int)

  /** `bridge` stands for the bridge, relay, user-access, ingress and site-to-site configurations. */
  datatype StateResponse = StateResponse(
    peers: seq<Peer>,
    policies: seq<Policy>,
    signingKeys: Option<SigningKeys>,
    metadata: map<string, string>,
    data: seq<DataEntry>,
    secretRefs: seq<SecretRef>,
    bridge: string)

  const ZERO_STATE := StateResponse([], [], None, map[], [], [], "")

  datatype Diff = Diff(
    peersToAdd: seq<Peer>,
    peersToRemove: seq<string>,
    peersToUpdate: seq<Peer>,
    policiesToAdd: seq<Policy>,
    policiesToRemove: seq<string>,
    newSigningKeys: Option<Option<SigningKeys>>,   // Some when the keys changed
    metadataChanged: bool,
    dataChanged: bool,
    secretRefsChanged: bool)
  {
    predicate IsEmpty()
    {
      && |peersToAdd| == 0 && |peersToRemove| == 0 && |peersToUpdate| == 0
      && |policiesToAdd| == 0 && |policiesToRemove| == 0
      && newSigningKeys == None && !metadataChanged && !dataChanged && !secretRefsChanged
    }
  }

  const NO_DIFF := Diff([], [], [], [], [], None, false, false, false)

  // ----- Specification -----

  function PeerId(p: Peer): string
  {
    p.id
  }

  function PolicyId(p: Policy): string
  {
    p.id
  }

  function Ids<T(==)>(xs: seq<T>, id: T -> string): set<string>
  {
    set x | x in xs :: id(x)
  }

  function ById(peers: seq<Peer>): map<string, Peer>
  {
    LastWins(peers, PeerId)
  }

  /** Equal in every compared field, allowed IPs up to order. */
  predicate SamePeer(a: Peer, b: Peer)
  {
    && a.publicKey == b.publicKey && a.meshIP == b.meshIP && a.endpoint == b.endpoint && a.psk == b.psk
    && multiset(a.allowedIPs) == multiset(b.allowedIPs)
  }

  /** The items whose ID is not in `known`, in order. */
  function Unknown<T>(xs: seq<T>, id: T -> string, known: set<string>): seq<T>
  {
    if xs == [] then []
    else
      var front := Unknown(xs[..|xs| - 1], id, known);
      if id(xs[|xs| - 1]) in known then front else front + [xs[|xs| - 1]]
  }

  /** The peers that are known under their ID but differ. */
  function Changed(peers: seq<Peer>, current: map<string, Peer>): seq<Peer>
  {
    if peers == [] then []
    else
      var front, last := Changed(peers[..|peers| - 1], current), peers[|peers| - 1];
      if last.id in current && !SamePeer(last, current[last.id]) then front + [last] else front
  }

  function IdList<T>(xs: seq<T>, id: T -> string): seq<string>
  {
    seq(|xs|, i requires 0 <= i < |xs| => id(xs[i]))
  }

  function DiffPeers(desired: seq<Peer>, current: seq<Peer>, d: Diff): Diff
  {
    d.(peersToAdd := Unknown(desired, PeerId, ById(current).Keys),
       peersToUpdate := Changed(desired, ById(current)),
       peersToRemove := IdList(Unknown(current, PeerId, Ids(desired, PeerId)), PeerId))
  }

  function DiffPolicies(desired: seq<Policy>, current: seq<Policy>, d: Diff): Diff
  {
    d.(policiesToAdd := Unknown(desired, PolicyId, Ids(current, PolicyId)),
       policiesToRemove := IdList(Unknown(current, PolicyId, Ids(desired, PolicyId)), PolicyId))
  }

  predicate SameKeys(a: Option<SigningKeys>, b: Option<SigningKeys>)
  {
    match (a, b)
    case (None, None) => true
    case (Some(x), Some(y)) => x.current == y.current && x.previous == y.previous
    case _ => false
  }

  function DiffKeys(desired: Option<SigningKeys>, current: Option<SigningKeys>): Option<Option<SigningKeys>>
  {
    if SameKeys(desired, current) then None else Some(desired)
  }

  /** The versions by key; contents are not compared. */
  function Versions(entries: seq<SecretRef>): map<string, int>
  {
    if entries == [] then map[]
    else
      var last := entries[|entries| - 1];
      Versions(entries[..|entries| - 1])[last.key := last.version]
  }

  function Refs(data: seq<DataEntry>): seq<SecretRef>
  {
    seq(|data|, i requires 0 <= i < |data| => SecretRef(data[i].key, data[i].version))
  }

  function DiffStates(desired: StateResponse, current: StateResponse): Diff
  {
    DiffPolicies(desired.policies, current.policies, DiffPeers(desired.peers, current.peers, NO_DIFF)).(
      newSigningKeys := DiffKeys(desired.signingKeys, current.signingKeys),
      metadataChanged := desired.metadata != current.metadata,
      dataChanged := Versions(Refs(desired.data)) != Versions(Refs(current.data)),
      secretRefsChanged := Versions(desired.secretRefs) != Versions(current.secretRefs))
  }

  /** A nil desired state has no drift; a nil current state counts as the zero state. */
  function ComputeDiff(desired: Option<StateResponse>, current: Option<StateResponse>): Diff
  {
    match desired
    case None => NO_DIFF
    case Some(d) => DiffStates(d, if current.Some? then current.value else ZERO_STATE)
  }

  // ----- The loops -----

  method PeerChanged(desired: Peer, current: Peer) returns (changed: bool)
    ensures changed <==> !SamePeer(desired, current)
    ensures changed <==> || desired.publicKey != current.publicKey || desired.meshIP != current.meshIP
                         || desired.endpoint != current.endpoint || desired.psk != current.psk
                         || multiset(desired.allowedIPs) != multiset(current.allowedIPs)
  {
    if desired.publicKey != current.publicKey || desired.meshIP != current.meshIP ||
       desired.endpoint != current.endpoint || desired.psk != current.psk
    {
      return true;
    }
    var equal := SortedStringsEqual(desired.allowedIPs, current.allowedIPs);
    changed := !equal;
  }

  lemma TakeSnoc<T>(xs: seq<T>, i: nat)
    requires i < |xs|
    ensures xs[..i + 1] == xs[..i] + [xs[i]] && xs[..i + 1][..i] == xs[..i]
  {
  }

  lemma IdsSnoc<T>(xs: seq<T>, i: nat, id: T -> string)
    requires i < |xs|
    ensures Ids(xs[..i + 1], id) == Ids(xs[..i], id) + {id(xs[i])}
  {
  }

  /** The removal loop of diffPeers and diffPolicies. */
  method CollectMissing<T>(current: seq<T>, id: T -> string, desiredIds: set<string>) returns (ids: seq<string>)
    ensures ids == IdList(Unknown(current, id, desiredIds), id)
  {
    ids := [];
    for i := 0 to |current|
      invariant ids == IdList(Unknown(current[..i], id, desiredIds), id)
    {
      TakeSnoc(current, i);
      if id(current[i]) !in desiredIds {
        ids := ids + [id(current[i])];
      }
    }
    assert current[..|current|] == current;
  }

  method RunDiffPeers(desired: seq<Peer>, current: seq<Peer>, diff: Diff) returns (d: Diff)
    ensures d == DiffPeers(desired, current, diff)
  {
    var currentById := ReadAsMap(current, PeerId);
    var desiredIds: set<string> := {};
    var toAdd, toUpdate := [], [];
    for i := 0 to |desired|
      invariant desiredIds == Ids(desired[..i], PeerId)
      invariant toAdd == Unknown(desired[..i], PeerId, currentById.Keys)
      invariant toUpdate == Changed(desired[..i], currentById)
    {
      TakeSnoc(desired, i);
      IdsSnoc(desired, i, PeerId);
      var dp := desired[i];
      desiredIds := desiredIds + {dp.id};
      if dp.id !in currentById {
        toAdd := toAdd + [dp];
        continue;
      }
      var changed := PeerChanged(dp, currentById[dp.id]);
      if changed {
        toUpdate := toUpdate + [dp];
      }
    }
    assert desired[..|desired|] == desired;
    var toRemove := CollectMissing(current, PeerId, desiredIds);
    d := diff.(peersToAdd := toAdd, peersToUpdate := toUpdate, peersToRemove := toRemove);
  }

  method CollectIds<T(==)>(xs: seq<T>, id: T -> string) returns (ids: set<string>)
    ensures ids == Ids(xs, id)
  {
    ids := {};
    for i := 0 to |xs|
      invariant ids == Ids(xs[..i], id)
    {
      IdsSnoc(xs, i, id);
      ids := ids + {id(xs[i])};
    }
    assert xs[..|xs|] == xs;
  }

  method RunDiffPolicies(desired: seq<Policy>, current: seq<Policy>, diff: Diff) returns (d: Diff)
    ensures d == DiffPolicies(desired, current, diff)
  {
    var currentIds := CollectIds(current, PolicyId);
    var desiredIds := CollectIds(desired, PolicyId);
    var toAdd := [];
    for i := 0 to |desired|
      invariant toAdd == Unknown(desired[..i], PolicyId, currentIds)
    {
      TakeSnoc(desired, i);
      if desired[i].id !in currentIds {
        toAdd := toAdd + [desired[i]];
      }
    }
    assert desired[..|desired|] == desired;
    var toRemove := CollectMissing(current, PolicyId, desiredIds);
    d := diff.(policiesToAdd := toAdd, policiesToRemove := toRemove);
  }

  method ReadVersions(entries: seq<SecretRef>) returns (m: map<string, int>)
    ensures m == Versions(entries)
  {
    m := map[];
    for i := 0 to |entries|
      invariant m == Versions(entries[..i])
    {
      TakeSnoc(entries, i);
      m := m[entries[i].key := entries[i].version];
    }
    assert entries[..|entries|] == entries;
  }

  /** The two key loops of diffData and diffSecretRefs. */
  method VersionsDiffer(desired: map<string, int>, current: map<string, int>) returns (differ: bool)
    ensures differ <==> desired != current
  {
    var todo := desired.Keys;
    while todo != {}
      invariant todo <= desired.Keys
      invariant forall k | k in desired && k !in todo :: k in current && desired[k] == current[k]
      decreases |todo|
    {
      var k :| k in todo;
      todo := todo - {k};
      if k !in current || desired[k] != current[k] {
        return true;
      }
    }
    todo := current.Keys;
    while todo != {}
      invariant todo <= current.Keys
      invariant forall k | k in current && k !in todo :: k in desired
      decreases |todo|
    {
      var k :| k in todo;
      todo := todo - {k};
      if k !in desired {
        return true;
      }
    }
    differ := false;
  }

  method RunComputeDiff(desired: Option<StateResponse>, current: Option<StateResponse>) returns (diff: Diff)
    ensures diff == ComputeDiff(desired, current)
  {
    diff := NO_DIFF;
    if desired == None {
      return;
    }
    var want, have := desired.value, if current.Some? then current.value else ZERO_STATE;
    diff := RunDiffPeers(want.peers, have.peers, diff);
    diff := RunDiffPolicies(want.policies, have.policies, diff);
    diff := diff.(newSigningKeys := DiffKeys(want.signingKeys, have.signingKeys),
                  metadataChanged := want.metadata != have.metadata);
    var wantData := ReadVersions(Refs(want.data));
    var haveData := ReadVersions(Refs(have.data));
    var dataDiffers := VersionsDiffer(wantData, haveData);
    var wantRefs := ReadVersions(want.secretRefs);
    var haveRefs := ReadVersions(have.secretRefs);
    var refsDiffer := VersionsDiffer(wantRefs, haveRefs);
    diff := diff.(dataChanged := dataDiffers, secretRefsChanged := refsDiffer);
  }

  // ----- What the peer diff means -----

  lemma {:induction false} UnknownMembers<T>(xs: seq<T>, id: T -> string, known: set<string>)
    ensures forall x :: x in Unknown(xs, id, known) <==> x in xs && id(x) !in known
  {
    if xs == [] {
    } else {
      UnknownMembers(xs[..|xs| - 1], id, known);
      assert xs == xs[..|xs| - 1] + [xs[|xs| - 1]];
    }
  }

  lemma {:induction false} ChangedMembers(peers: seq<Peer>, current: map<string, Peer>)
    ensures forall p :: p in Changed(peers, current) <==> p in peers && p.id in current && !SamePeer(p, current[p.id])
  {
    if peers == [] {
    } else {
      ChangedMembers(peers[..|peers| - 1], current);
      assert peers == peers[..|peers| - 1] + [peers[|peers| - 1]];
    }
  }

  function RemoveAll(m: map<string, Peer>, ids: seq<string>): map<string, Peer>
  {
    m - set id | id in ids
  }

  /** A handler that carries out the diff: remove, then update, then add. */
  function ApplyPeerDiff(current: map<string, Peer>, d: Diff): map<string, Peer>
  {
    RemoveAll(current, d.peersToRemove) + LastWins(d.peersToUpdate, PeerId) + LastWins(d.peersToAdd, PeerId)
  }

  predicate SamePeerMaps(a: map<string, Peer>, b: map<string, Peer>)
  {
    a.Keys == b.Keys && forall id | id in a :: SamePeer(a[id], b[id])
  }

  lemma UniqueById(peers: seq<Peer>, p: Peer)
    requires UniqueIds(peers, PeerId) && p in peers
    ensures p.id in ById(peers) && ById(peers)[p.id] == p
  {
    LastWinsKeys(peers, PeerId);
    assert PeerId(p) in ById(peers);
    var q := ById(peers)[p.id];
    var i :| 0 <= i < |peers| && peers[i] == p;
    var j :| 0 <= j < |peers| && peers[j] == q;
    assert PeerId(peers[i]) == PeerId(peers[j]);
  }

  /** The three lists of the peer diff, as sets of IDs. */
  lemma PeerDiffIds(desired: seq<Peer>, current: seq<Peer>)
    ensures var d := DiffPeers(desired, current, NO_DIFF);
            && Ids(d.peersToAdd, PeerId) == Ids(desired, PeerId) - ById(current).Keys
            && Ids(d.peersToUpdate, PeerId) <= Ids(desired, PeerId) * ById(current).Keys
            && (set id | id in d.peersToRemove) == ById(current).Keys - Ids(desired, PeerId)
  {
    var d := DiffPeers(desired, current, NO_DIFF);
    var gone := Unknown(current, PeerId, Ids(desired, PeerId));
    UnknownMembers(desired, PeerId, ById(current).Keys);
    ChangedMembers(desired, ById(current));
    UnknownMembers(current, PeerId, Ids(desired, PeerId));
    LastWinsKeys(current, PeerId);
    forall id
      ensures id in d.peersToRemove <==> id in ById(current).Keys - Ids(desired, PeerId)
    {
      if id in d.peersToRemove {
        var i :| 0 <= i < |gone| && d.peersToRemove[i] == id;
        assert gone[i] in gone && PeerId(gone[i]) == id;
      }
      if id in ById(current).Keys - Ids(desired, PeerId) {
        var x :| x in current && PeerId(x) == id;
        assert x in gone;
        var i :| 0 <= i < |gone| && gone[i] == x;
        assert d.peersToRemove[i] == id;
      }
    }
  }

  /** Disjointness needs no assumption: an ID is removed, updated or added, never two of them. */
  lemma PeerDiffDisjoint(desired: seq<Peer>, current: seq<Peer>)
    ensures var d := DiffPeers(desired, current, NO_DIFF);
            && Ids(d.peersToAdd, PeerId) !! Ids(d.peersToUpdate, PeerId)
            && Ids(d.peersToAdd, PeerId) !! (set id | id in d.peersToRemove)
            && Ids(d.peersToUpdate, PeerId) !! (set id | id in d.peersToRemove)
  {
    PeerDiffIds(desired, current);
  }

  /** Where the diff does not touch an ID, the two sides already agree on it. */
  lemma AppliedPeer(desired: seq<Peer>, current: seq<Peer>, p: Peer)
    requires UniqueIds(desired, PeerId) && p in desired
    ensures var m := ApplyPeerDiff(ById(current), DiffPeers(desired, current, NO_DIFF));
            p.id in m && SamePeer(m[p.id], p)
  {
    var d := DiffPeers(desired, current, NO_DIFF);
    UnknownMembers(desired, PeerId, ById(current).Keys);
    ChangedMembers(desired, ById(current));
    PeerDiffIds(desired, current);
    assert PeerId(p) in Ids(desired, PeerId);
    LastWinsKeys(d.peersToAdd, PeerId);
    LastWinsKeys(d.peersToUpdate, PeerId);
    if p.id in LastWins(d.peersToAdd, PeerId) {
      UniqueById(desired, LastWins(d.peersToAdd, PeerId)[p.id]);
      UniqueById(desired, p);
    } else {
      assert p !in d.peersToAdd;
      if p.id in LastWins(d.peersToUpdate, PeerId) {
        UniqueById(desired, LastWins(d.peersToUpdate, PeerId)[p.id]);
        UniqueById(desired, p);
      } else {
        assert p !in d.peersToUpdate;
      }
    }
  }

  lemma AppliedIds(desired: seq<Peer>, current: seq<Peer>)
    ensures ApplyPeerDiff(ById(current), DiffPeers(desired, current, NO_DIFF)).Keys == Ids(desired, PeerId)
  {
    var d := DiffPeers(desired, current, NO_DIFF);
    PeerDiffIds(desired, current);
    LastWinsKeys(d.peersToAdd, PeerId);
    LastWinsKeys(d.peersToUpdate, PeerId);
  }

  lemma DesiredById(desired: seq<Peer>, id: string)
    requires id in ById(desired)
    ensures ById(desired)[id] in desired && ById(desired)[id].id == id
  {
    LastWinsKeys(desired, PeerId);
  }

  /** Carrying out the diff yields the desired peers, up to the order of allowed IPs. */
  lemma PeerDiffReachesDesired(desired: seq<Peer>, current: seq<Peer>)
    requires UniqueIds(desired, PeerId)
    ensures SamePeerMaps(ApplyPeerDiff(ById(current), DiffPeers(desired, current, NO_DIFF)), ById(desired))
  {
    var m, want := ApplyPeerDiff(ById(current), DiffPeers(desired, current, NO_DIFF)), ById(desired);
    AppliedIds(desired, current);
    assert want.Keys == Ids(desired, PeerId) by {
      LastWinsKeys(desired, PeerId);
    }
    forall id | id in m
      ensures SamePeer(m[id], want[id])
    {
      DesiredById(desired, id);
      AppliedPeer(desired, current, want[id]);
    }
  }

  /** Every desired peer is current, and no other ID is. */
  predicate PeersSettled(desired: seq<Peer>, current: seq<Peer>)
  {
    && (forall p | p in desired :: p.id in ById(current) && SamePeer(p, ById(current)[p.id]))
    && ById(current).Keys <= Ids(desired, PeerId)
  }

  /** For any two lists, repeated IDs included. */
  lemma NoPeerDriftIff(desired: seq<Peer>, current: seq<Peer>)
    ensures var d := DiffPeers(desired, current, NO_DIFF);
            d.peersToAdd == [] && d.peersToUpdate == [] && d.peersToRemove == [] <==> PeersSettled(desired, current)
  {
    var d := DiffPeers(desired, current, NO_DIFF);
    var have := ById(current);
    assert d.peersToAdd == [] <==> forall p | p in desired :: p.id in have by {
      UnknownMembers(desired, PeerId, have.Keys);
      assert d.peersToAdd != [] ==> d.peersToAdd[0] in d.peersToAdd;
      assert forall p | p in desired && p.id !in have :: PeerId(p) !in have.Keys && p in d.peersToAdd;
    }
    assert d.peersToUpdate == [] <==> forall p | p in desired && p.id in have :: SamePeer(p, have[p.id]) by {
      ChangedMembers(desired, have);
      assert d.peersToUpdate != [] ==> d.peersToUpdate[0] in d.peersToUpdate;
    }
    assert d.peersToRemove == [] <==> have.Keys <= Ids(desired, PeerId) by {
      PeerDiffIds(desired, current);
      var removed := set id | id in d.peersToRemove;
      assert d.peersToRemove != [] ==> d.peersToRemove[0] in removed;
      assert removed == have.Keys - Ids(desired, PeerId);
      assert forall id | id in have.Keys && id !in Ids(desired, PeerId) :: id in removed;
    }
  }

  /** With unique IDs that is agreement of the two maps. */
  lemma NoPeerDriftIffMapsAgree(desired: seq<Peer>, current: seq<Peer>)
    requires UniqueIds(desired, PeerId)
    ensures var d := DiffPeers(desired, current, NO_DIFF);
            d.peersToAdd == [] && d.peersToUpdate == [] && d.peersToRemove == []
            <==> SamePeerMaps(ById(desired), ById(current))
  {
    NoPeerDriftIff(desired, current);
    LastWinsKeys(desired, PeerId);
    forall p | p in desired
      ensures p.id in ById(desired) && ById(desired)[p.id] == p
    {
      UniqueById(desired, p);
    }
    assert forall id | id in ById(desired) :: ById(desired)[id] in desired;
  }

  // ----- What the whole diff means -----

  /**
   * What the diff takes for agreement: policies by ID only, keys without their expiry, data and
   * secrets by version only, and no bridge configuration at all.
   */
  predicate Settled(desired: StateResponse, current: StateResponse)
  {
    && PeersSettled(desired.peers, current.peers)
    && Ids(desired.policies, PolicyId) == Ids(current.policies, PolicyId)
    && SameKeys(desired.signingKeys, current.signingKeys)
    && desired.metadata == current.metadata
    && Versions(Refs(desired.data)) == Versions(Refs(current.data))
    && Versions(desired.secretRefs) == Versions(current.secretRefs)
  }

  lemma NoPolicyDriftIff(desired: seq<Policy>, current: seq<Policy>)
    ensures var d := DiffPolicies(desired, current, NO_DIFF);
            d.policiesToAdd == [] && d.policiesToRemove == []
            <==> Ids(desired, PolicyId) == Ids(current, PolicyId)
  {
    var add := Unknown(desired, PolicyId, Ids(current, PolicyId));
    var gone := Unknown(current, PolicyId, Ids(desired, PolicyId));
    UnknownMembers(desired, PolicyId, Ids(current, PolicyId));
    UnknownMembers(current, PolicyId, Ids(desired, PolicyId));
    assert add == [] <==> Ids(desired, PolicyId) <= Ids(current, PolicyId) by {
      assert add != [] ==> add[0] in add && PolicyId(add[0]) in Ids(desired, PolicyId);
    }
    assert gone == [] <==> Ids(current, PolicyId) <= Ids(desired, PolicyId) by {
      assert gone != [] ==> gone[0] in gone && PolicyId(gone[0]) in Ids(current, PolicyId);
    }
    assert IdList(gone, PolicyId) == [] <==> gone == [];
  }

  /** The keys after a key change was carried out. */
  function ApplyKeys(current: Option<SigningKeys>, d: Diff): Option<SigningKeys>
  {
    if d.newSigningKeys.Some? then d.newSigningKeys.value else current
  }

  /**
   * Carrying out the whole diff: the keys become the desired ones, exactly so when a change is handed out
   * and at least up to their expiry otherwise; removing and adding policies gives the desired IDs, and
   * only desired policies that are new are added.
   */
  lemma DiffReachesDesired(desired: StateResponse, current: StateResponse)
    ensures var d := DiffStates(desired, current);
            && (d.newSigningKeys.Some? ==> d.newSigningKeys.value == desired.signingKeys)
            && (d.newSigningKeys.Some? <==> !SameSigners(desired.signingKeys, current.signingKeys))
            && SameSigners(ApplyKeys(current.signingKeys, d), desired.signingKeys)
            && (set p | p in current.policies :: p.id) - (set id | id in d.policiesToRemove)
               + (set p | p in d.policiesToAdd :: p.id) == (set p | p in desired.policies :: p.id)
            && (forall p :: p in d.policiesToAdd <==>
                  p in desired.policies && forall q | q in current.policies :: q.id != p.id)
            && (forall id :: id in d.policiesToRemove <==>
                  (exists q | q in current.policies :: q.id == id) && forall p | p in desired.policies :: p.id != id)
  {
    PolicyDiffMeans(desired.policies, current.policies);
  }

  /** Both absent, or the same current and previous key. */
  predicate SameSigners(a: Option<SigningKeys>, b: Option<SigningKeys>)
  {
    && (a.Some? <==> b.Some?)
    && (a.Some? ==> a.value.current == b.value.current && a.value.previous == b.value.previous)
  }

  lemma PolicyDiffMeans(desired: seq<Policy>, current: seq<Policy>)
    ensures var d := DiffPolicies(desired, current, NO_DIFF);
            && (forall p :: p in d.policiesToAdd <==> p in desired && forall q | q in current :: q.id != p.id)
            && (forall id :: id in d.policiesToRemove <==>
                  (exists q | q in current :: q.id == id) && forall p | p in desired :: p.id != id)
            && (set p | p in current :: p.id) - (set id | id in d.policiesToRemove)
               + (set p | p in d.policiesToAdd :: p.id) == (set p | p in desired :: p.id)
  {
    var d := DiffPolicies(desired, current, NO_DIFF);
    UnknownMembers(desired, PolicyId, Ids(current, PolicyId));
    forall p | p in desired
      ensures PolicyId(p) in Ids(current, PolicyId) <==> exists q | q in current :: q.id == p.id
    {
      if q :| q in current && q.id == p.id {
        assert PolicyId(q) in Ids(current, PolicyId);
      }
    }
    forall id
      ensures id in d.policiesToRemove <==>
              (exists q | q in current :: q.id == id) && forall p | p in desired :: p.id != id
    {
      RemovedIds(desired, current, id);
    }
    assert (set p | p in current :: p.id) - (set id | id in d.policiesToRemove)
           + (set p | p in d.policiesToAdd :: p.id) == (set p | p in desired :: p.id);
  }

  lemma RemovedIds(desired: seq<Policy>, current: seq<Policy>, id: string)
    ensures id in DiffPolicies(desired, current, NO_DIFF).policiesToRemove <==>
            (exists q | q in current :: q.id == id) && forall p | p in desired :: p.id != id
  {
    var gone := Unknown(current, PolicyId, Ids(desired, PolicyId));
    var ids := IdList(gone, PolicyId);
    UnknownMembers(current, PolicyId, Ids(desired, PolicyId));
    if id in ids {
      var i :| 0 <= i < |ids| && ids[i] == id;
      assert gone[i] in gone && PolicyId(gone[i]) == id;
      forall p | p in desired
        ensures p.id != id
      {
        assert PolicyId(p) in Ids(desired, PolicyId);
      }
    }
    if (exists q | q in current :: q.id == id) && forall p | p in desired :: p.id != id {
      var q :| q in current && q.id == id;
      assert q in gone;
      var i :| 0 <= i < |gone| && gone[i] == q;
      assert ids[i] == id;
    }
  }

  /** The last entry with a key gives its version. */
  lemma {:induction false} VersionsLast(entries: seq<SecretRef>, i: nat)
    requires i < |entries| && forall j | i < j < |entries| :: entries[j].key != entries[i].key
    ensures entries[i].key in Versions(entries) && Versions(entries)[entries[i].key] == entries[i].version
    decreases |entries|
  {
    if i == |entries| - 1 {
    } else {
      VersionsLast(entries[..|entries| - 1], i);
    }
  }

  lemma {:induction false} VersionsKeys(entries: seq<SecretRef>, k: string)
    ensures k in Versions(entries) <==> exists i | 0 <= i < |entries| :: entries[i].key == k
  {
    if entries == [] {
    } else {
      var front := entries[..|entries| - 1];
      VersionsKeys(front, k);
      if i :| 0 <= i < |front| && front[i].key == k {
        assert entries[i].key == k;
      }
    }
  }

  /** The diff is empty exactly when the states are settled, for all states. */
  lemma NoDriftIff(desired: StateResponse, current: StateResponse)
    ensures DiffStates(desired, current).IsEmpty() <==> Settled(desired, current)
  {
    NoPeerDriftIff(desired.peers, current.peers);
    NoPolicyDriftIff(desired.policies, current.policies);
  }

  /** Peers that share an ID are the same peer, up to the order of allowed IPs. */
  predicate ConsistentPeers(peers: seq<Peer>)
  {
    forall p, q | p in peers && q in peers && p.id == q.id :: SamePeer(p, q)
  }

  /** A state compared with itself shows no drift exactly when its peer IDs are consistent. */
  lemma SelfDriftIff(s: StateResponse, bridge: string)
    ensures DiffStates(s, s.(bridge := bridge)).IsEmpty() <==> ConsistentPeers(s.peers)
  {
    NoDriftIff(s, s.(bridge := bridge));
    LastWinsKeys(s.peers, PeerId);
    var m := ById(s.peers);
    assert forall p | p in s.peers :: PeerId(p) in m && m[p.id] in s.peers && m[p.id].id == p.id;
  }

  lemma UniqueIsConsistent(peers: seq<Peer>)
    requires UniqueIds(peers, PeerId)
    ensures ConsistentPeers(peers)
  {
  }
}
