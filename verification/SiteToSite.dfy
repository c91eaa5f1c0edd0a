/**
 * internal/bridge/site_to_site.go and site_to_site_handler.go: site-to-site tunnels, the
 * interfaces, peers, forwarding pairs and routes they own in the operating system, rollback of
 * failed additions, and the diff-and-restart reconcile handler.
 */
module SiteToSite {
  import opened Prelude
  import opened DesiredState

  datatype Tunnel = Tunnel(
    id: string,
    remoteEndpoint: string,
    remotePublicKey: string,
    localSubnets: seq<string>,
    remoteSubnets: seq<string>,
    psk: string,
    iface: string,
    listenPort: int)

  // ----- Operating-system state -----

  datatype Fact =
    | Link(name: string, port: int)
    | PeerOn(link: string, key: string, allowed: seq<string>, endpoint: string, psk: string)
    | Forwarding(link: string, mesh: string)
    | Route(subnet: string, link: string)

  type OS = set<Fact>

  predicate About(f: Fact, iface: string)
  {
    match f
    case Link(name, _) => name == iface
    case PeerOn(link, _, _, _, _) => link == iface
    case Forwarding(link, _) => link == iface
    case Route(_, link) => link == iface
  }

  function Elsewhere(os: OS, iface: string): OS
  {
    set f | f in os && !About(f, iface)
  }

  predicate Unused(os: OS, iface: string)
  {
    forall f | f in os :: !About(f, iface)
  }

  function WithLink(os: OS, name: string, port: int): OS
  {
    (set f | f in os && !(f.Link? && f.name == name)) + {Link(name, port)}
  }

  /** Removing an interface also removes the peers configured on it. */
  function WithoutLink(os: OS, name: string): OS
  {
    set f | f in os && !(f.Link? && f.name == name) && !(f.PeerOn? && f.link == name)
  }

  function WithoutPeer(os: OS, link: string, key: string): OS
  {
    set f | f in os && !(f.PeerOn? && f.link == link && f.key == key)
  }

  function PeerFact(t: Tunnel): Fact
  {
    PeerOn(t.iface, t.remotePublicKey, t.remoteSubnets, t.remoteEndpoint, t.psk)
  }

  function Routes(t: Tunnel, n: nat): OS
    requires n <= |t.remoteSubnets|
  {
    set i | 0 <= i < n :: Route(t.remoteSubnets[i], t.iface)
  }

  /** Everything one tunnel owns. */
  function Footprint(t: Tunnel, mesh: string): OS
  {
    {Link(t.iface, t.listenPort), PeerFact(t), Forwarding(t.iface, mesh)} + Routes(t, |t.remoteSubnets|)
  }

  /** Everything the active tunnels own. */
  function Owned(tunnels: map<string, Tunnel>, mesh: string): OS
  {
    set id, f | id in tunnels && f in Footprint(tunnels[id], mesh) :: f
  }

  function Install(os: OS, t: Tunnel, mesh: string): OS
  {
    WithoutPeer(WithLink(os, t.iface, t.listenPort), t.iface, t.remotePublicKey) + Footprint(t, mesh)
  }

  /** The tunnel is up: its link, its peer, its forwarding pair and its routes are as configured. */
  predicate Carries(os: OS, t: Tunnel, mesh: string)
  {
    && Link(t.iface, t.listenPort) in os
    && (forall f | f in os && f.Link? && f.name == t.iface :: f.port == t.listenPort)
    && PeerOn(t.iface, t.remotePublicKey, t.remoteSubnets, t.remoteEndpoint, t.psk) in os
    && (forall f | f in os && f.PeerOn? && f.link == t.iface && f.key == t.remotePublicKey ::
          f.allowed == t.remoteSubnets && f.endpoint == t.remoteEndpoint && f.psk == t.psk)
    && Forwarding(t.iface, mesh) in os
    && (forall subnet | subnet in t.remoteSubnets :: Route(subnet, t.iface) in os)
  }

  /** Nothing else hangs on the interface. */
  predicate Only(os: OS, t: Tunnel, mesh: string)
  {
    forall f | f in os ::
      && (f.PeerOn? && f.link == t.iface ==> f.key == t.remotePublicKey)
      && (f.Forwarding? && f.link == t.iface ==> f.mesh == mesh)
      && (f.Route? && f.link == t.iface ==> f.subnet in t.remoteSubnets)
  }

  /** What AddTunnel leaves when it succeeds, on any system; the interface's facts are exactly these if it is new. */
  lemma InstallCarries(os: OS, t: Tunnel, mesh: string)
    ensures Carries(Install(os, t, mesh), t, mesh)
    ensures Unused(os, t.iface) ==> Only(Install(os, t, mesh), t, mesh)
  {
    forall subnet | subnet in t.remoteSubnets
      ensures Route(subnet, t.iface) in Routes(t, |t.remoteSubnets|)
    {
      var i :| 0 <= i < |t.remoteSubnets| && t.remoteSubnets[i] == subnet;
    }
  }

  function Uninstall(os: OS, t: Tunnel, mesh: string): OS
  {
    WithoutLink(os, t.iface) - {Forwarding(t.iface, mesh)} - Routes(t, |t.remoteSubnets|)
  }

  datatype AddError =
    | Inactive
    | AlreadyExists
    | MaxTunnels
    | CreateFailed
    | ConfigureFailed
    | ForwardingFailed
    | RouteFailed(added: nat)

  /** What a failed addition leaves behind when every rollback call works. */
  function RolledBack(os: OS, t: Tunnel, mesh: string, err: AddError): OS
    requires err.RouteFailed? ==> err.added <= |t.remoteSubnets|
  {
    match err
    case ConfigureFailed => WithoutLink(os, t.iface)
    case ForwardingFailed => WithoutLink(os, t.iface)
    case RouteFailed(n) => WithoutLink(os, t.iface) - {Forwarding(t.iface, mesh)} - Routes(t, n)
    case _ => os
  }

  /**
   * The kernel behind the VPN and route controllers. Any call may fail, as the fault functions
   * decide from the number of calls made so far; a failed call changes nothing.
   */
  class Kernel {
    var os: OS
    var calls: nat
    const addFault: nat -> bool
    const removeFault: nat -> bool

    constructor (os: OS, addFault: nat -> bool, removeFault: nat -> bool)
      ensures this.os == os && calls == 0 && this.addFault == addFault && this.removeFault == removeFault
    {
      this.os, calls, this.addFault, this.removeFault := os, 0, addFault, removeFault;
    }

    ghost predicate CleanupWorks()
    {
      forall n: nat :: !removeFault(n)
    }

    ghost predicate NeverFails()
    {
      forall n: nat :: !addFault(n)
    }

    method Set(next: OS) returns (ok: bool)
      modifies this
      ensures calls == old(calls) + 1
      ensures ok == !addFault(old(calls))
      ensures os == if ok then next else old(os)
    {
      ok := !addFault(calls);
      calls := calls + 1;
      if ok {
        os := next;
      }
    }

    method Unset(next: OS)
      modifies this
      ensures os == next || (os == old(os) && !CleanupWorks())
    {
      var ok := !removeFault(calls);
      calls := calls + 1;
      if ok {
        os := next;
      }
    }

    method CreateTunnelInterface(name: string, port: int) returns (ok: bool)
      modifies this
      ensures calls == old(calls) + 1
      ensures ok == !addFault(old(calls))
      ensures os == if ok then WithLink(old(os), name, port) else old(os)
    {
      ok := Set(WithLink(os, name, port));
    }

    method ConfigureTunnelPeer(t: Tunnel) returns (ok: bool)
      modifies this
      ensures calls == old(calls) + 1
      ensures ok == !addFault(old(calls))
      ensures os == if ok then WithoutPeer(old(os), t.iface, t.remotePublicKey) + {PeerFact(t)} else old(os)
    {
      ok := Set(WithoutPeer(os, t.iface, t.remotePublicKey) + {PeerFact(t)});
    }

    method EnableForwarding(link: string, mesh: string) returns (ok: bool)
      modifies this
      ensures calls == old(calls) + 1
      ensures ok == !addFault(old(calls))
      ensures os == if ok then old(os) + {Forwarding(link, mesh)} else old(os)
    {
      ok := Set(os + {Forwarding(link, mesh)});
    }

    method AddRoute(subnet: string, link: string) returns (ok: bool)
      modifies this
      ensures calls == old(calls) + 1
      ensures ok == !addFault(old(calls))
      ensures os == if ok then old(os) + {Route(subnet, link)} else old(os)
    {
      ok := Set(os + {Route(subnet, link)});
    }

    method RemoveTunnelInterface(name: string)
      modifies this
      ensures os == WithoutLink(old(os), name) || (os == old(os) && !CleanupWorks())
    {
      Unset(WithoutLink(os, name));
    }

    method RemoveTunnelPeer(link: string, key: string)
      modifies this
      ensures os == WithoutPeer(old(os), link, key) || (os == old(os) && !CleanupWorks())
    {
      Unset(WithoutPeer(os, link, key));
    }

    method DisableForwarding(link: string, mesh: string)
      modifies this
      ensures os == old(os) - {Forwarding(link, mesh)} || (os == old(os) && !CleanupWorks())
    {
      Unset(os - {Forwarding(link, mesh)});
    }

    method RemoveRoute(subnet: string, link: string)
      modifies this
      ensures os == old(os) - {Route(subnet, link)} || (os == old(os) && !CleanupWorks())
    {
      Unset(os - {Route(subnet, link)});
    }

    /** The loop over a tunnel's subnets used by rollback, removal and teardown. */
    method RemoveRoutes(t: Tunnel, n: nat)
      requires n <= |t.remoteSubnets|
      modifies this
      ensures Elsewhere(os, t.iface) == Elsewhere(old(os), t.iface)
      ensures CleanupWorks() ==> os == old(os) - Routes(t, n)
    {
      for i := 0 to n
        invariant Elsewhere(os, t.iface) == Elsewhere(old(os), t.iface)
        invariant CleanupWorks() ==> os == old(os) - Routes(t, i)
      {
        assert Routes(t, i + 1) == Routes(t, i) + {Route(t.remoteSubnets[i], t.iface)};
        RemoveRoute(t.remoteSubnets[i], t.iface);
      }
    }
  }

  class SiteToSiteManager {
    const kernel: Kernel
    const enabled: bool
    const maxTunnels: int
    var active: bool
    var meshIface: string
    var tunnels: map<string, Tunnel>

    constructor (kernel: Kernel, enabled: bool, maxTunnels: int)
      ensures this.kernel == kernel && this.enabled == enabled && this.maxTunnels == maxTunnels
      ensures !active && tunnels == map[]
    {
      this.kernel, this.enabled, this.maxTunnels := kernel, enabled, maxTunnels;
      active, meshIface, tunnels := false, "", map[];
    }

    function Value(): View
      reads this, kernel
    {
      View(active, meshIface, tunnels, kernel.os)
    }

    predicate Valid()
      reads this
    {
      && (forall id | id in tunnels :: tunnels[id].id == id)
      && (!active ==> tunnels == map[])
    }

    method Setup(mesh: string)
      requires Valid()
      modifies this
      ensures Valid() && tunnels == old(tunnels)
      ensures active == (enabled || old(active))
      ensures meshIface == if enabled then mesh else old(meshIface)
    {
      if !enabled {
        return;
      }
      active, meshIface := true, mesh;
    }

    /** The steps that may need rolling back, in order. */
    method Bring(t: Tunnel) returns (err: Option<AddError>)
      modifies kernel
      ensures Elsewhere(kernel.os, t.iface) == Elsewhere(old(kernel.os), t.iface)
      ensures err == None ==> kernel.os == Install(old(kernel.os), t, meshIface)
      ensures err.Some? ==> err.value in {CreateFailed, ConfigureFailed, ForwardingFailed} || err.value.RouteFailed?
      ensures err.Some? ==> Possible(t, err.value)
      ensures err.Some? && kernel.CleanupWorks() ==> kernel.os == RolledBack(old(kernel.os), t, meshIface, err.value)
      ensures kernel.NeverFails() ==> err == None
    {
      ghost var os0 := kernel.os;
      var ok := kernel.CreateTunnelInterface(t.iface, t.listenPort);
      if !ok {
        return Some(CreateFailed);
      }
      ok := kernel.ConfigureTunnelPeer(t);
      if !ok {
        kernel.RemoveTunnelInterface(t.iface);
        return Some(ConfigureFailed);
      }
      ok := kernel.EnableForwarding(t.iface, meshIface);
      if !ok {
        kernel.RemoveTunnelPeer(t.iface, t.remotePublicKey);
        kernel.RemoveTunnelInterface(t.iface);
        return Some(ForwardingFailed);
      }
      err := AddRoutes(t, os0, kernel.os);
    }

    method AddRoutes(t: Tunnel, ghost os0: OS, ghost os1: OS) returns (err: Option<AddError>)
      requires os1 == WithoutPeer(WithLink(os0, t.iface, t.listenPort), t.iface, t.remotePublicKey)
                      + {PeerFact(t)} + {Forwarding(t.iface, meshIface)}
      requires kernel.os == os1
      modifies kernel
      ensures Elsewhere(kernel.os, t.iface) == Elsewhere(os0, t.iface)
      ensures err == None ==> kernel.os == Install(os0, t, meshIface)
      ensures err.Some? ==> err.value.RouteFailed? && err.value.added < |t.remoteSubnets|
      ensures err.Some? && kernel.CleanupWorks() ==> kernel.os == RolledBack(os0, t, meshIface, err.value)
      ensures kernel.NeverFails() ==> err == None
    {
      for i := 0 to |t.remoteSubnets|
        invariant kernel.os == os1 + Routes(t, i)
      {
        assert Routes(t, i + 1) == Routes(t, i) + {Route(t.remoteSubnets[i], t.iface)};
        var ok := kernel.AddRoute(t.remoteSubnets[i], t.iface);
        if !ok {
          RollBackRoutes(t, i, os0, os1);
          return Some(RouteFailed(i));
        }
      }
      err := None;
    }

    /** Undo after the failure of route `n`: earlier routes, forwarding, peer, interface. */
    method RollBackRoutes(t: Tunnel, n: nat, ghost os0: OS, ghost os1: OS)
      requires n <= |t.remoteSubnets|
      requires os1 == WithoutPeer(WithLink(os0, t.iface, t.listenPort), t.iface, t.remotePublicKey)
                      + {PeerFact(t)} + {Forwarding(t.iface, meshIface)}
      requires kernel.os == os1 + Routes(t, n)
      modifies kernel
      ensures Elsewhere(kernel.os, t.iface) == Elsewhere(os0, t.iface)
      ensures kernel.CleanupWorks() ==> kernel.os == RolledBack(os0, t, meshIface, RouteFailed(n))
    {
      assert Elsewhere(kernel.os, t.iface) == Elsewhere(os0, t.iface);
      kernel.RemoveRoutes(t, n);
      kernel.DisableForwarding(t.iface, meshIface);
      assert Elsewhere(kernel.os, t.iface) == Elsewhere(os0, t.iface);
      kernel.RemoveTunnelPeer(t.iface, t.remotePublicKey);
      kernel.RemoveTunnelInterface(t.iface);
    }

    method AddTunnel(t: Tunnel) returns (err: Option<AddError>)
      requires Valid()
      modifies this`tunnels, kernel
      ensures Valid()
      ensures tunnels == if err == None then old(tunnels)[t.id := t] else old(tunnels)
      ensures err == Some(Inactive) <==> !active
      ensures err == Some(AlreadyExists) <==> active && t.id in old(tunnels)
      ensures err == Some(MaxTunnels) <==> active && t.id !in old(tunnels) && |old(tunnels)| >= maxTunnels
      ensures Elsewhere(kernel.os, t.iface) == Elsewhere(old(kernel.os), t.iface)
      ensures err == None ==> kernel.os == Install(old(kernel.os), t, meshIface)
      ensures err.Some? ==> Possible(t, err.value)
      ensures err.Some? && kernel.CleanupWorks() ==> kernel.os == RolledBack(old(kernel.os), t, meshIface, err.value)
      ensures kernel.NeverFails() && active && t.id !in old(tunnels) && |old(tunnels)| < maxTunnels ==> err == None
    {
      if !active {
        return Some(Inactive);
      }
      if t.id in tunnels {
        return Some(AlreadyExists);
      }
      if |tunnels| >= maxTunnels {
        return Some(MaxTunnels);
      }
      err := Bring(t);
      if err == None {
        tunnels := tunnels[t.id := t];
      }
    }

    method RemoveTunnel(id: string)
      requires Valid()
      modifies this`tunnels, kernel
      ensures Valid()
      ensures tunnels == old(tunnels) - {id}
      ensures id !in old(tunnels) ==> unchanged(kernel)
      ensures id in old(tunnels) ==>
                && Elsewhere(kernel.os, old(tunnels)[id].iface) == Elsewhere(old(kernel.os), old(tunnels)[id].iface)
                && (kernel.CleanupWorks() ==> kernel.os == Uninstall(old(kernel.os), old(tunnels)[id], meshIface))
    {
      if !active || id !in tunnels {
        return;
      }
      var t := tunnels[id];
      kernel.RemoveRoutes(t, |t.remoteSubnets|);
      kernel.DisableForwarding(t.iface, meshIface);
      kernel.RemoveTunnelPeer(t.iface, t.remotePublicKey);
      kernel.RemoveTunnelInterface(t.iface);
      tunnels := tunnels - {id};
    }

    /** Interface removal alone takes the peers with it. */
    method TakeDown(t: Tunnel)
      modifies kernel
      ensures kernel.CleanupWorks() ==> kernel.os == Uninstall(old(kernel.os), t, meshIface)
    {
      kernel.RemoveRoutes(t, |t.remoteSubnets|);
      kernel.DisableForwarding(t.iface, meshIface);
      kernel.RemoveTunnelInterface(t.iface);
    }

    /** Errors are collected and never stop the loop. */
    method Teardown()
      requires Valid()
      modifies this`active, this`tunnels, kernel
      ensures Valid() && !active && tunnels == map[]
      ensures !old(active) ==> unchanged(kernel)
      ensures kernel.CleanupWorks() ==> kernel.os == AllRemoved(old(kernel.os), old(tunnels), meshIface)
    {
      ghost var os0, all := kernel.os, tunnels;
      assert AllRemoved(os0, map[], meshIface) == os0;
      if !active {
        return;
      }
      var todo := tunnels.Keys;
      ghost var done: map<string, Tunnel> := map[];
      while todo != {}
        invariant tunnels == all && todo <= all.Keys
        invariant done == all - todo
        invariant kernel.CleanupWorks() ==> kernel.os == AllRemoved(os0, done, meshIface)
        decreases |todo|
      {
        var id :| id in todo;
        TakeDown(tunnels[id]);
        RemoveOneMore(os0, done, id, tunnels[id], meshIface);
        todo, done := todo - {id}, done[id := tunnels[id]];
      }
      assert done == all;
      active, tunnels := false, map[];
    }

    /** The IDs come in no particular order and without repetition. */
    method TunnelIDs() returns (ids: set<string>)
      ensures ids == tunnels.Keys
    {
      ids := tunnels.Keys;
    }
  }

  /** One tunnel's uninstall drops this fact. */
  predicate Erases(t: Tunnel, mesh: string, f: Fact)
  {
    || (f.Link? && f.name == t.iface)
    || (f.PeerOn? && f.link == t.iface)
    || f == Forwarding(t.iface, mesh)
    || f in Routes(t, |t.remoteSubnets|)
  }

  function AllRemoved(os: OS, tunnels: map<string, Tunnel>, mesh: string): OS
  {
    set f | f in os && forall id | id in tunnels :: !Erases(tunnels[id], mesh, f)
  }

  lemma RemoveOneMore(os: OS, done: map<string, Tunnel>, id: string, t: Tunnel, mesh: string)
    requires id !in done
    ensures Uninstall(AllRemoved(os, done, mesh), t, mesh) == AllRemoved(os, done[id := t], mesh)
  {
    var more := done[id := t];
    forall f
      ensures f in Uninstall(AllRemoved(os, done, mesh), t, mesh) <==> f in AllRemoved(os, more, mesh)
    {
      assert more[id] == t;
      assert forall k | k in done :: more[k] == done[k];
    }
  }

  // ----- When rollback and removal are exact -----

  /** A way in which an addition can fail; a route that fails leaves earlier ones added. */
  predicate Possible(t: Tunnel, err: AddError)
  {
    err.RouteFailed? ==> err.added < |t.remoteSubnets|
  }

  /** A fact that some rollback of this addition erases, whether or not the addition had put it there. */
  predicate AtRisk(t: Tunnel, mesh: string, f: Fact)
  {
    || (f.Link? && f.name == t.iface)
    || (f.PeerOn? && f.link == t.iface)
    || (t.remoteSubnets != [] && (f == Forwarding(t.iface, mesh) || f in Routes(t, |t.remoteSubnets| - 1)))
  }

  lemma ErasedIsAtRisk(os: OS, t: Tunnel, mesh: string, err: AddError, f: Fact)
    requires Possible(t, err) && f in os && f !in RolledBack(os, t, mesh, err)
    ensures AtRisk(t, mesh, f)
  {
    if err.RouteFailed? {
      assert Routes(t, err.added) <= Routes(t, |t.remoteSubnets| - 1);
    }
  }

  /** The failure whose rollback erases most. */
  function WorstFailure(t: Tunnel): AddError
  {
    if t.remoteSubnets == [] then ForwardingFailed else RouteFailed(|t.remoteSubnets| - 1)
  }

  /**
   * However an addition fails, it restores the old state, exactly when the interface name carries no
   * link and no peer and, for a tunnel with subnets, no forwarding pair to the mesh interface and no
   * route to any of its subnets but the last.
   */
  lemma RollbackRestoresIff(os: OS, t: Tunnel, mesh: string)
    ensures (forall err | Possible(t, err) :: RolledBack(os, t, mesh, err) == os)
       <==> (forall f | f in os :: !AtRisk(t, mesh, f))
  {
    if forall f | f in os :: !AtRisk(t, mesh, f) {
      forall err | Possible(t, err)
        ensures RolledBack(os, t, mesh, err) == os
      {
        forall f | f in os
          ensures f in RolledBack(os, t, mesh, err)
        {
          if f !in RolledBack(os, t, mesh, err) {
            ErasedIsAtRisk(os, t, mesh, err, f);
          }
        }
      }
    } else {
      assert Possible(t, WorstFailure(t));
      assert RolledBack(os, t, mesh, WorstFailure(t)) != os;
    }
  }

  /** With a fresh interface name an addition is all or nothing, and removal undoes it. */
  lemma FreshTunnelIsAtomic(os: OS, t: Tunnel, mesh: string, err: AddError)
    requires Unused(os, t.iface) && Possible(t, err)
    ensures Install(os, t, mesh) == os + Footprint(t, mesh)
    ensures RolledBack(os, t, mesh, err) == os
    ensures Uninstall(Install(os, t, mesh), t, mesh) == os
  {
  }

  /** Removing one tunnel leaves another intact exactly when they do not share an interface. */
  lemma RemoveSparesOtherIff(os: OS, t: Tunnel, other: Tunnel, mesh: string)
    requires Unused(os, t.iface) && Unused(os, other.iface)
    ensures Uninstall(os + Footprint(other, mesh) + Footprint(t, mesh), t, mesh) == os + Footprint(other, mesh)
       <==> t.iface != other.iface
  {
  }

  /** Calling Setup with another mesh interface strands the forwarding pair of a tunnel already up. */
  lemma RemoveUnderMeshIff(os: OS, t: Tunnel, addedUnder: string, removedUnder: string)
    requires Unused(os, t.iface)
    ensures Uninstall(os + Footprint(t, addedUnder), t, removedUnder) == os <==> addedUnder == removedUnder
  {
  }

  // ----- Whole runs -----

  predicate DistinctLinks(tunnels: map<string, Tunnel>)
  {
    forall a, b | a in tunnels && b in tunnels && a != b :: tunnels[a].iface != tunnels[b].iface
  }

  predicate UnusedByAll(os: OS, tunnels: map<string, Tunnel>)
  {
    forall id | id in tunnels :: Unused(os, tunnels[id].iface)
  }

  lemma OwnedElsewhere(tunnels: map<string, Tunnel>, mesh: string, iface: string)
    requires forall id | id in tunnels :: tunnels[id].iface != iface
    ensures Unused(Owned(tunnels, mesh), iface)
  {
  }

  lemma OwnedPlus(tunnels: map<string, Tunnel>, mesh: string, id: string, t: Tunnel)
    requires id !in tunnels
    ensures Owned(tunnels[id := t], mesh) == Owned(tunnels, mesh) + Footprint(t, mesh)
  {
    var more := tunnels[id := t];
    forall f
      ensures f in Owned(more, mesh) <==> f in Owned(tunnels, mesh) + Footprint(t, mesh)
    {
      if f in Owned(more, mesh) {
        var k :| k in more && f in Footprint(more[k], mesh);
        assert k != id ==> k in tunnels && f in Footprint(tunnels[k], mesh);
      }
      if f in Owned(tunnels, mesh) {
        var k :| k in tunnels && f in Footprint(tunnels[k], mesh);
        assert k in more && f in Footprint(more[k], mesh);
      }
      if f in Footprint(t, mesh) {
        assert id in more && f in Footprint(more[id], mesh);
      }
    }
  }

  lemma AddTracks(base: OS, tunnels: map<string, Tunnel>, mesh: string, t: Tunnel)
    requires t.id !in tunnels && Unused(base, t.iface)
    requires forall id | id in tunnels :: tunnels[id].iface != t.iface
    ensures Unused(base + Owned(tunnels, mesh), t.iface)
    ensures Install(base + Owned(tunnels, mesh), t, mesh) == base + Owned(tunnels[t.id := t], mesh)
  {
    OwnedElsewhere(tunnels, mesh, t.iface);
    OwnedPlus(tunnels, mesh, t.id, t);
    FreshTunnelIsAtomic(base + Owned(tunnels, mesh), t, mesh, Inactive);
  }

  lemma RemoveTracks(base: OS, tunnels: map<string, Tunnel>, mesh: string, id: string)
    requires id in tunnels && DistinctLinks(tunnels) && UnusedByAll(base, tunnels)
    requires forall k | k in tunnels :: tunnels[k].id == k
    ensures Uninstall(base + Owned(tunnels, mesh), tunnels[id], mesh) == base + Owned(tunnels - {id}, mesh)
  {
    var rest := tunnels - {id};
    assert tunnels == rest[id := tunnels[id]];
    AddTracks(base, rest, mesh, tunnels[id]);
    FreshTunnelIsAtomic(base + Owned(rest, mesh), tunnels[id], mesh, Inactive);
  }

  lemma TeardownTracks(base: OS, tunnels: map<string, Tunnel>, mesh: string)
    requires UnusedByAll(base, tunnels)
    ensures AllRemoved(base + Owned(tunnels, mesh), tunnels, mesh) == base
  {
  }

  datatype Op = SetupOp(mesh: string) | AddOp(t: Tunnel) | RemoveOp(id: string) | TeardownOp

  /** The system state is what it was before the run plus exactly what the active tunnels own. */
  predicate Follows(os: OS, base: OS, tunnels: map<string, Tunnel>, mesh: string)
  {
    && os == base + Owned(tunnels, mesh)
    && DistinctLinks(tunnels)
    && UnusedByAll(base, tunnels)
  }

  ghost predicate Tracks(m: SiteToSiteManager, base: OS)
    reads m, m.kernel
  {
    m.Valid() && Follows(m.kernel.os, base, m.tunnels, m.meshIface)
  }

  /** Whatever an addition answers, the system state follows the tunnel map. */
  lemma AddOutcomeTracks(
    base: OS, tunnels: map<string, Tunnel>, mesh: string, t: Tunnel, err: Option<AddError>, os: OS)
    requires Unused(base, t.iface)
    requires forall id | id in tunnels && id != t.id :: tunnels[id].iface != t.iface
    requires err == None ==> t.id !in tunnels && os == Install(base + Owned(tunnels, mesh), t, mesh)
    requires err.Some? ==> Possible(t, err.value) && os == RolledBack(base + Owned(tunnels, mesh), t, mesh, err.value)
    requires t.id in tunnels ==> err == Some(AlreadyExists) || err == Some(Inactive)
    ensures os == base + Owned(if err == None then tunnels[t.id := t] else tunnels, mesh)
  {
    if t.id !in tunnels {
      AddTracks(base, tunnels, mesh, t);
      if err.Some? {
        FreshTunnelIsAtomic(base + Owned(tunnels, mesh), t, mesh, err.value);
      }
    }
  }

  /** A manager and the system under it. */
  datatype View = View(active: bool, mesh: string, tunnels: map<string, Tunnel>, os: OS)

  /** An addition succeeds, is refused, or fails at some call and is rolled back. */
  ghost predicate AddStep(v: View, t: Tunnel, w: View)
  {
    || (t.id !in v.tunnels && w == v.(tunnels := v.tunnels[t.id := t], os := Install(v.os, t, v.mesh)))
    || w == v
    || (t.id !in v.tunnels && exists err | Possible(t, err) :: w == v.(os := RolledBack(v.os, t, v.mesh, err)))
  }

  /** What an operation may do, whichever forward calls fail. */
  ghost predicate Step(enabled: bool, v: View, op: Op, w: View)
  {
    match op
    case SetupOp(mesh) => w == if enabled then v.(active := true, mesh := mesh) else v
    case AddOp(t) => AddStep(v, t, w) && (!v.active ==> w == v)
    case RemoveOp(id) =>
      w == if id in v.tunnels then v.(tunnels := v.tunnels - {id}, os := Uninstall(v.os, v.tunnels[id], v.mesh)) else v
    case TeardownOp => w == View(false, v.mesh, map[], AllRemoved(v.os, v.tunnels, v.mesh))
  }

  /** The states of a run, one before each operation and one at the end. */
  ghost predicate History(enabled: bool, ops: seq<Op>, h: seq<View>)
  {
    |h| == |ops| + 1 && forall i | 0 <= i < |ops| :: Step(enabled, h[i], ops[i], h[i + 1])
  }

  /**
   * At this moment: a new tunnel's interface name is new to the system and used by no other active
   * tunnel, and Setup does not change the mesh interface under active tunnels.
   */
  predicate Careful(base: OS, v: View, op: Op)
  {
    && (op.AddOp? ==>
          Unused(base, op.t.iface) && forall id | id in v.tunnels && id != op.t.id :: v.tunnels[id].iface != op.t.iface)
    && (op.SetupOp? && v.tunnels != map[] ==> op.mesh == v.mesh)
  }

  predicate Sound(base: OS, v: View)
  {
    && (forall id | id in v.tunnels :: v.tunnels[id].id == id)
    && Follows(v.os, base, v.tunnels, v.mesh)
  }

  /** In such a state every active tunnel is up as configured, and nothing else hangs on its interface. */
  lemma SoundCarries(base: OS, v: View, id: string)
    requires Sound(base, v) && id in v.tunnels
    ensures Carries(v.os, v.tunnels[id], v.mesh) && Only(v.os, v.tunnels[id], v.mesh)
  {
    var t, rest := v.tunnels[id], v.tunnels - {id};
    assert v.tunnels == rest[id := t];
    AddTracks(base, rest, v.mesh, t);
    InstallCarries(base + Owned(rest, v.mesh), t, v.mesh);
  }

  lemma AddStepSound(base: OS, v: View, t: Tunnel, w: View)
    requires Sound(base, v) && Careful(base, v, AddOp(t)) && AddStep(v, t, w)
    ensures Sound(base, w)
  {
    if w == v {
    } else if w.tunnels != v.tunnels {
      AddOutcomeTracks(base, v.tunnels, v.mesh, t, None, w.os);
    } else {
      var err :| Possible(t, err) && w == v.(os := RolledBack(v.os, t, v.mesh, err));
      AddOutcomeTracks(base, v.tunnels, v.mesh, t, Some(err), w.os);
    }
  }

  lemma StepSound(enabled: bool, base: OS, v: View, op: Op, w: View)
    requires Sound(base, v) && Careful(base, v, op) && Step(enabled, v, op, w)
    ensures Sound(base, w)
    ensures op == TeardownOp ==> w.os == base
  {
    match op
    case SetupOp(mesh) =>
      if v.tunnels == map[] {
        assert Owned(v.tunnels, v.mesh) == {} == Owned(v.tunnels, mesh);
      }
    case AddOp(t) =>
      AddStepSound(base, v, t, w);
    case RemoveOp(id) =>
      if id in v.tunnels {
        RemoveTracks(base, v.tunnels, v.mesh, id);
      }
    case TeardownOp =>
      TeardownTracks(base, v.tunnels, v.mesh);
      assert Owned(map[], v.mesh) == {};
  }

  /**
   * Every run, whichever forward calls fail: as long as names are chosen with care at each moment, the
   * system is the initial state plus exactly what the active tunnels own, and the initial state right
   * after a teardown. A name freed by a removal may be given to any other tunnel.
   */
  lemma {:induction false} HistorySound(enabled: bool, base: OS, ops: seq<Op>, h: seq<View>, n: nat)
    requires History(enabled, ops, h) && n <= |ops| && Sound(base, h[0])
    requires forall i | 0 <= i < n :: Careful(base, h[i], ops[i])
    ensures Sound(base, h[n])
    ensures n > 0 && ops[n - 1] == TeardownOp ==> h[n].os == base
  {
    if n == 0 {
    } else {
      HistorySound(enabled, base, ops, h, n - 1);
      assert Step(enabled, h[n - 1], ops[n - 1], h[n - 1 + 1]);
      StepSound(enabled, base, h[n - 1], ops[n - 1], h[n]);
    }
  }

  method Apply(m: SiteToSiteManager, op: Op)
    requires m.Valid() && m.kernel.CleanupWorks()
    modifies m, m.kernel
    ensures m.Valid() && Step(m.enabled, old(m.Value()), op, m.Value())
  {
    match op
    case SetupOp(name) =>
      m.Setup(name);
    case AddOp(t) =>
      ghost var before := m.Value();
      var err := m.AddTunnel(t);
      if err.Some? {
        assert Possible(t, err.value);
        assert m.Value() == before.(os := RolledBack(before.os, t, before.mesh, err.value));
      }
    case RemoveOp(id) =>
      if id !in m.tunnels {
        assert m.tunnels - {id} == m.tunnels;
      }
      m.RemoveTunnel(id);
    case TeardownOp =>
      m.Teardown();
  }

  /** A run of the manager with working cleanup has such a history. */
  method Run(m: SiteToSiteManager, ops: seq<Op>) returns (ghost h: seq<View>)
    requires m.Valid() && m.kernel.CleanupWorks()
    modifies m, m.kernel
    ensures m.Valid() && History(m.enabled, ops, h) && h[0] == old(m.Value()) && h[|ops|] == m.Value()
    ensures !old(m.active) && (forall i | 0 <= i < |ops| :: Careful(old(m.kernel.os), h[i], ops[i])) ==>
              && m.kernel.os == old(m.kernel.os) + Owned(m.tunnels, m.meshIface)
              && (ops != [] && ops[|ops| - 1] == TeardownOp ==> m.kernel.os == old(m.kernel.os))
  {
    ghost var base := m.kernel.os;
    assert Owned(map[], m.meshIface) == {};
    h := [m.Value()];
    for i := 0 to |ops|
      invariant m.Valid() && History(m.enabled, ops[..i], h) && h[0] == old(m.Value()) && h[i] == m.Value()
    {
      Apply(m, ops[i]);
      ExtendHistory(m.enabled, ops, i, h, m.Value());
      h := h + [m.Value()];
    }
    assert ops[..|ops|] == ops;
    if !old(m.active) && forall i | 0 <= i < |ops| :: Careful(base, h[i], ops[i]) {
      HistorySound(m.enabled, base, ops, h, |ops|);
    }
  }

  lemma ExtendHistory(enabled: bool, ops: seq<Op>, i: nat, h: seq<View>, w: View)
    requires i < |ops| && History(enabled, ops[..i], h) && Step(enabled, h[i], ops[i], w)
    ensures History(enabled, ops[..i + 1], h + [w])
  {
    var done, longer := ops[..i], h + [w];
    forall k | 0 <= k < i + 1
      ensures Step(enabled, longer[k], ops[..i + 1][k], longer[k + 1])
    {
      if k < i {
        assert Step(enabled, h[k], done[k], h[k + 1]);
      }
    }
  }

  // ----- Reconciliation -----

  function IdOf(t: Tunnel): string
  {
    t.id
  }

  function Desired(list: seq<Tunnel>): map<string, Tunnel>
  {
    LastWins(list, IdOf)
  }

  /** The listed interface names are new to the system and not shared by two IDs. */
  predicate FreshList(base: OS, list: seq<Tunnel>)
  {
    && (forall t | t in list :: Unused(base, t.iface))
    && (forall t, u | t in list && u in list && t.iface == u.iface :: t.id == u.id)
  }

  /** One iteration of the removal loop. */
  method PruneOne(
    m: SiteToSiteManager, desired: map<string, Tunnel>, id: string, current: set<string>,
    ghost all: map<string, Tunnel>, ghost pending: set<string>, ghost base: OS)
    returns (current': set<string>)
    requires m.Valid() && id in all && id in pending && m.tunnels == Pruned(all, desired, pending)
    requires Marks(current, desired, m.tunnels)
    modifies m`tunnels, m.kernel
    ensures m.Valid() && m.tunnels == Pruned(all, desired, pending - {id})
    ensures Marks(current', desired, m.tunnels)
    ensures id in desired && all[id] == desired[id] ==> unchanged(m.kernel)
    ensures m.kernel.CleanupWorks() && old(Follows(m.kernel.os, base, m.tunnels, m.meshIface)) ==>
              Follows(m.kernel.os, base, m.tunnels, m.meshIface)
  {
    PruneStep(all, desired, pending, id);
    if Follows(m.kernel.os, base, m.tunnels, m.meshIface) {
      RemoveTracks(base, m.tunnels, m.meshIface, id);
    }
    current' := current;
    if id !in desired {
      m.RemoveTunnel(id);
    } else if m.tunnels[id] != desired[id] {
      m.RemoveTunnel(id);
      current' := current - {id};
    }
  }

  /** Stale and changed tunnels go; changed ones are marked for re-adding. */
  method RemoveOutdated(m: SiteToSiteManager, desired: map<string, Tunnel>, ghost base: OS)
    returns (current: set<string>)
    requires m.Valid()
    modifies m`tunnels, m.kernel
    ensures m.Valid() && m.tunnels == Kept(old(m.tunnels), desired)
    ensures Marks(current, desired, m.tunnels)
    ensures old(m.tunnels) == desired ==> unchanged(m.kernel)
    ensures m.kernel.CleanupWorks() && old(Follows(m.kernel.os, base, m.tunnels, m.meshIface)) ==>
              Follows(m.kernel.os, base, m.tunnels, m.meshIface)
  {
    ghost var all := m.tunnels;
    var ids := m.TunnelIDs();
    current := ids;
    assert Pruned(all, desired, ids) == all;
    while ids != {}
      invariant m.Valid() && ids <= all.Keys
      invariant m.tunnels == Pruned(all, desired, ids)
      invariant Marks(current, desired, m.tunnels)
      invariant all == desired ==> unchanged(m.kernel)
      invariant m.kernel.CleanupWorks() && old(Follows(m.kernel.os, base, m.tunnels, m.meshIface)) ==>
                  Follows(m.kernel.os, base, m.tunnels, m.meshIface)
      decreases |ids|
    {
      var id :| id in ids;
      current := PruneOne(m, desired, id, current, all, ids, base);
      ids := ids - {id};
    }
    assert Pruned(all, desired, {}) == Kept(all, desired);
  }

  /** An addition within a reconcile run: its effect on the map, and on the system when that is tracked. */
  method TryAdd(m: SiteToSiteManager, list: seq<Tunnel>, t: Tunnel, ghost base: OS, ghost tracked: bool)
    returns (err: Option<AddError>)
    requires m.Valid() && t in list && FromList(m.tunnels, list, IdOf)
    requires tracked ==> FreshList(base, list) && m.kernel.CleanupWorks()
    requires tracked ==> Follows(m.kernel.os, base, m.tunnels, m.meshIface)
    modifies m`tunnels, m.kernel
    ensures m.Valid()
    ensures m.tunnels == if err == None then old(m.tunnels)[t.id := t] else old(m.tunnels)
    ensures err == None ==> t.id !in old(m.tunnels)
    ensures m.kernel.NeverFails() && m.active && t.id !in old(m.tunnels) && |old(m.tunnels)| < m.maxTunnels ==>
              err == None
    ensures tracked ==> Follows(m.kernel.os, base, m.tunnels, m.meshIface)
  {
    ghost var running := m.tunnels;
    err := m.AddTunnel(t);
    if tracked {
      AddOutcomeTracks(base, running, m.meshIface, t, err, m.kernel.os);
    }
  }

  /** The addition loop after `i` entries; `tracked` when the system state is followed too. */
  ghost predicate Adding(
    m: SiteToSiteManager, list: seq<Tunnel>, i: nat, current: set<string>, clean: bool,
    kept: map<string, Tunnel>, feasible: bool, base: OS, tracked: bool)
    requires i <= |list|
    reads m, m.kernel
  {
    && m.Valid() && AsDesired(kept, list, IdOf) && Marks(current, Desired(list), kept)
    && feasible == Feasible(m, list)
    && Progress(kept, list, IdOf, i, m.tunnels, clean, feasible)
    && (tracked ==> && FreshList(base, list) && m.kernel.CleanupWorks()
                    && Follows(m.kernel.os, base, m.tunnels, m.meshIface))
  }

  /** One iteration of the addition loop: entries marked as running are skipped. */
  method AddOne(
    m: SiteToSiteManager, list: seq<Tunnel>, i: nat, current: set<string>, errs: seq<AddError>,
    ghost kept: map<string, Tunnel>, ghost feasible: bool, ghost base: OS, ghost tracked: bool)
    returns (errs': seq<AddError>)
    requires i < |list| && Adding(m, list, i, current, errs == [], kept, feasible, base, tracked)
    modifies m`tunnels, m.kernel
    ensures Adding(m, list, i + 1, current, errs' == [], kept, feasible, base, tracked)
    ensures kept == Desired(list) ==> errs' == errs && unchanged(m.kernel)
  {
    LastWinsHas(list, IdOf, i);
    ghost var running, clean := m.tunnels, errs == [];
    if list[i].id in current {
      ProgressSkip(kept, list, IdOf, i, running, clean, feasible);
      return errs;
    }
    if clean && list[i].id !in running {
      RoomLeft(kept, list, IdOf, i);
    }
    var err := TryAdd(m, list, list[i], base, tracked);
    ProgressAdd(kept, list, IdOf, i, running, clean, feasible, err == None);
    errs' := if err.Some? then errs + [err.value] else errs;
  }

  /** The addition loop. */
  method AddAll(
    m: SiteToSiteManager, list: seq<Tunnel>, current: set<string>,
    ghost kept: map<string, Tunnel>, ghost feasible: bool, ghost base: OS, ghost tracked: bool)
    returns (errs: seq<AddError>)
    requires Adding(m, list, 0, current, true, kept, feasible, base, tracked)
    modifies m`tunnels, m.kernel
    ensures Adding(m, list, |list|, current, errs == [], kept, feasible, base, tracked)
    ensures kept == Desired(list) ==> errs == [] && unchanged(m.kernel)
  {
    errs := [];
    for i := 0 to |list|
      invariant Adding(m, list, i, current, errs == [], kept, feasible, base, tracked)
      invariant kept == Desired(list) ==> errs == [] && unchanged(m.kernel)
    {
      errs := AddOne(m, list, i, current, errs, kept, feasible, base, tracked);
    }
  }

  /** Adds what is missing; with no error the map has become the desired one. */
  method AddMissing(m: SiteToSiteManager, list: seq<Tunnel>, current: set<string>, ghost base: OS)
    returns (errs: seq<AddError>)
    requires m.Valid() && AsDesired(m.tunnels, list, IdOf) && Marks(current, Desired(list), m.tunnels)
    modifies m`tunnels, m.kernel
    ensures m.Valid() && Extends(old(m.tunnels), m.tunnels) && FromList(m.tunnels, list, IdOf)
    ensures errs == [] ==> m.tunnels == Desired(list) && RepeatsOnly(list, IdOf, |list|, old(m.tunnels).Keys)
    ensures Feasible(m, list) ==> (errs == [] <==> RepeatsOnly(list, IdOf, |list|, old(m.tunnels).Keys))
    ensures old(m.tunnels) == Desired(list) ==> errs == [] && unchanged(m.kernel)
    ensures FreshList(base, list) && m.kernel.CleanupWorks()
            && old(Follows(m.kernel.os, base, m.tunnels, m.meshIface)) ==>
              Follows(m.kernel.os, base, m.tunnels, m.meshIface)
  {
    ghost var tracked :=
      FreshList(base, list) && m.kernel.CleanupWorks() && Follows(m.kernel.os, base, m.tunnels, m.meshIface);
    ghost var kept, feasible := m.tunnels, Feasible(m, list);
    ProgressStart(kept, list, IdOf, feasible);
    errs := AddAll(m, list, current, kept, feasible, base, tracked);
    ProgressDone(kept, list, IdOf, m.tunnels, errs == [], feasible);
  }

  /** Nothing stands in the way of the additions: an active manager, room, and no controller failure. */
  ghost predicate Feasible(m: SiteToSiteManager, list: seq<Tunnel>)
    reads m
  {
    m.active && m.kernel.NeverFails() && |Desired(list)| <= m.maxTunnels
  }

  /**
   * The reconcile handler. A nil result means the running tunnels are exactly the desired ones, last
   * occurrence winning, and that every repeated ID was already running as desired; any other repetition
   * is an error. When nothing stands in the way, nothing else is: unique IDs always give nil. When all
   * of the desired tunnels already run, nothing is touched. With working cleanup and fresh names the
   * system state follows the map through every removal, addition and rollback, so a nil result means it
   * is the state before the manager plus exactly what the desired tunnels own.
   */
  method Reconcile(m: SiteToSiteManager, desired: Option<seq<Tunnel>>, ghost base: OS) returns (errs: seq<AddError>)
    requires m.Valid()
    modifies m`tunnels, m.kernel
    ensures m.Valid()
    ensures desired == None ==> errs == [] && m.tunnels == old(m.tunnels) && unchanged(m.kernel)
    ensures desired.Some? ==>
              && Extends(Kept(old(m.tunnels), Desired(desired.value)), m.tunnels)
              && FromList(m.tunnels, desired.value, IdOf)
    ensures desired.Some? ==>
              var list := desired.value;
              var settled := RepeatsOnly(list, IdOf, |list|, Kept(old(m.tunnels), Desired(list)).Keys);
              && (errs == [] ==> m.tunnels == Desired(list) && settled)
              && (Feasible(m, list) && settled ==> errs == [])
    ensures desired.Some? && old(m.tunnels) == Desired(desired.value) ==>
              errs == [] && m.tunnels == old(m.tunnels) && unchanged(m.kernel)
    ensures desired.Some? && FreshList(base, desired.value) && m.kernel.CleanupWorks() && old(Tracks(m, base)) ==>
              && Tracks(m, base)
              && (errs == [] ==> m.kernel.os == base + Owned(Desired(desired.value), m.meshIface))
  {
    if desired == None {
      return [];
    }
    var desiredSet := ReadAsMap(desired.value, IdOf);
    assert Kept(desiredSet, desiredSet) == desiredSet;
    var current := RemoveOutdated(m, desiredSet, base);
    errs := AddMissing(m, desired.value, current, base);
  }
}
