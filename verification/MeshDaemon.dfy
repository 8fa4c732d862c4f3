/** One daemon's view of the mesh and the two graph algorithms it runs over it. */
module MeshDaemon {
  import opened MeshGraph
  import opened Sssp
  import opened SsspTermination
  import opened SsspTurns
  import opened Mst
  import B = Broadcast
  import T = SpanningTree

  /** What becomes of the network device when reachability changes. */
  datatype Device = Keep | Disable | Enable

  class Daemon {
    const myself: Node
    var g: Graph
    var info: map<Node, Info>
    var reachable: set<Node>
    var validkey: set<Node>
    // The peers we hold a connection with an edge to, and those of them flagged status.mst.
    var connections: set<Node>
    var mst: set<Node>

    /** Breadth-first search from myself, on every mesh on which it ends. */
    method SsspBfs()
      requires WellFormed(g) && myself in g.out && Ends(g, myself)
      modifies this`info
      ensures SoundRoutes(g, myself, info)
      ensures NoIndirect(g) ==> OptimalRoutes(g, myself, info)
    {
      hide WellFormed;
      hide Inv;
      hide Scanned;
      hide SoundRoutes;
      hide OptimalRoutes;
      hide Turn;
      hide Fit;
      info := (map n | n in g.out :: UNSEEN);
      info := info[myself := Info(true, false, 0, 0, myself, myself)];
      var todo := [myself];
      BeginInv(g, myself);
      assert info == Begin(g, myself).info;
      InvFit(g, myself, Search(info, todo));
      ghost var k: nat :| Turns(g, myself, Search(info, todo), k).todo == [];
      while todo != []
        invariant Inv(g, myself, Search(info, todo)) && Fit(g, Search(info, todo))
        invariant Turns(g, myself, Search(info, todo), k).todo == []
        decreases k
      {
        ghost var t := Search(info, todo);
        StartScan(g, myself, t);
        TurnKeeps(g, myself, t);
        TurnIs(g, myself, t);
        todo := ExamineEdges(todo[0], todo);
        todo := todo[1..];
        assert Search(info, todo) == Turn(g, myself, t);
        k := k - 1;
      }
      SearchDone(g, myself, Search(info, todo));
    }

    /** The inner loop: the edges of n, the head of the list. */
    method ExamineEdges(n: Node, todo0: seq<Node>) returns (todo: seq<Node>)
      requires n in g.out && forall e <- g.out[n] :: e.from == n && n in info && e.to in info
      modifies this`info
      ensures Search(info, todo) == ScanAll(g, myself, Search(old(info), todo0), g.out[n])
    {
      hide HasReverse;
      todo := todo0;
      var es := g.out[n];
      ghost var t := Search(info, todo);
      assert es[..0] == [];
      for i := 0 to |es|
        invariant info.Keys == old(info.Keys)
        invariant forall e <- es[..i] :: e in es
        invariant Search(info, todo) == ScanAll(g, myself, t, es[..i])
      {
        var e := es[i];
        ghost var s := Search(info, todo);
        if HasReverse(g, e) && e.to != myself {
          var indirect := info[n].indirect || e.indirect;
          var to := info[e.to];
          if !(to.visited && (!to.indirect || indirect)
               && (to.distance != info[n].distance + 1 || to.weighted <= info[n].weighted + e.weight)) {
            if !to.visited || (to.distance == info[n].distance + 1 && to.weighted > info[n].weighted + e.weight) {
              to := to.(nexthop := if info[n].nexthop == myself then e.to else info[n].nexthop,
                        weighted := info[n].weighted + e.weight);
            }
            to := to.(visited := true, indirect := indirect,
                      via := if indirect then info[n].via else e.to, distance := info[n].distance + 1);
            info := info[e.to := to];
            todo := todo + [e.to];
          }
        }
        assert Search(info, todo) == Scan(g, myself, s, e);
        assert es[..i + 1] == es[..i] + [e];
        ScanOne(g, myself, t, es, i + 1);
      }
      assert es[..|es|] == es;
    }

    /** The nodes other than ourselves. */
    function Others(c: set<Node>): (r: set<Node>) { c - {myself} }

    /** status.reachable follows status.visited, node by node. A change invalidates the
        node's key. A device in standby goes down when the last other node is lost, and up
        when all reachable ones are new. */
    method CheckReachability(standby: bool) returns (device: Device)
      requires WellFormed(g) && info.Keys == g.out.Keys && reachable <= g.out.Keys
      modifies this`reachable, this`validkey
      ensures forall n :: n in reachable <==> n in info && info[n].visited
      ensures forall n :: n in validkey <==> n in old(validkey) && (n in reachable <==> n in old(reachable))
      ensures device == (if standby && Others(reachable) == {} && Others(old(reachable)) != {} then Disable
                         else if standby && Others(reachable) != {} && Others(reachable) !! old(reachable) then Enable
                         else Keep)
    {
      hide WellFormed;
      hide Tallied;
      ghost var visited := set n | n in info && info[n].visited;
      var now, up, down, t := FollowAll(visited);
      TallyDone(visited, myself, old(reachable), old(validkey), g.out.Keys, reachable, validkey, t);
      if standby && now == 0 && down > 0 {
        return Disable;
      } else if standby && now > 0 && now == up {
        return Enable;
      }
      return Keep;
    }

    /** The loop over the nodes, with its three counts. */
    method FollowAll(ghost visited: set<Node>) returns (now: nat, up: nat, down: nat, ghost t: Tally)
      requires WellFormed(g) && info.Keys == g.out.Keys && visited == set n | n in info && info[n].visited
      modifies this`reachable, this`validkey
      ensures Tallied(visited, myself, old(reachable), old(validkey), g.out.Keys, reachable, validkey, t)
      ensures now == |t.now| && up == |t.up| && down == |t.down|
    {
      hide WellFormed;
      hide Tallied;
      hide Tallying;
      hide Front;
      ghost var was, keys := reachable, validkey;
      now, up, down, t := 0, 0, 0, Tally({}, {}, {});
      FrontEnds(g);
      TallyStart(visited, myself, was, keys);
      for i := 0 to |g.nodes|
        invariant Tallied(visited, myself, was, keys, Front(g.nodes, i), reachable, validkey, t)
        invariant now == |t.now| && up == |t.up| && down == |t.down|
      {
        var n := g.nodes[i];
        ghost var r, k := reachable, validkey;
        FrontGrows(g, i);
        var counts := Follow(n);
        TallyTurn(g, visited, myself, was, keys, i, r, k, t, reachable, validkey);
        t := Tallying(visited, myself, was, t, n);
        now, up, down := now + counts.0, up + counts.1, down + counts.2;
      }
    }

    /** One node: its reachability toggles when it differs from visited. The result is what
        it adds to the three counts. */
    method Follow(n: Node) returns (counts: (nat, nat, nat))
      requires n in info
      modifies this`reachable, this`validkey
      ensures reachable == if info[n].visited then old(reachable) + {n} else old(reachable) - {n}
      ensures validkey == if info[n].visited != (n in old(reachable)) then old(validkey) - {n} else old(validkey)
      ensures counts.0 == if n != myself && info[n].visited then 1 else 0
      ensures counts.1 == if n != myself && info[n].visited && n !in old(reachable) then 1 else 0
      ensures counts.2 == if n != myself && !info[n].visited && n in old(reachable) then 1 else 0
    {
      var up, down := 0, 0;
      if info[n].visited != (n in reachable) {
        reachable := if n in reachable then reachable - {n} else reachable + {n};
        if n in reachable {
          up := if n != myself then 1 else 0;
        } else {
          down := if n != myself then 1 else 0;
        }
        validkey := validkey - {n};
      }
      return (if n in reachable && n != myself then 1 else 0, up, down);
    }

    /** The links over which broadcasts travel. The scan goes through the edges in weight
        order and starts over after an addition if it had skipped any. */
    method MstKruskal() returns (tree: set<T.Link>)
      requires WellFormed(g)
      modifies this`mst
      ensures tree == MstTree(g, reachable)
      ensures mst == Flagged(tree)
    {
      hide WellFormed;
      hide HasReverse;
      hide StartSet;
      hide LinkOf;
      mst := {};
      tree := {};
      var visited: set<Node> := StartingPoint();
      var skipped := false;
      var i := 0;
      while i < |g.byWeight|
        invariant 0 <= i <= |g.byWeight|
        invariant forall j :: 0 <= j < i ==> !Safe(g, visited, j)
        invariant !skipped ==> forall j :: 0 <= j < i ==> g.byWeight[j].from in visited && g.byWeight[j].to in visited
        invariant Grow(g, visited, tree) == MstTree(g, reachable)
        invariant mst == Flagged(tree)
        decreases g.out.Keys - visited, |g.byWeight| - i
      {
        var e := g.byWeight[i];
        if !HasReverse(g, e) || (e.from in visited) == (e.to in visited) {
          skipped := true;
          i := i + 1;
        } else {
          assert Safe(g, visited, i);
          assert FirstSafe(g, visited, 0) == i;
          EdgeKnown(g, e);
          FlagConnections(e, tree);
          visited := visited + {e.from, e.to};
          tree := tree + {LinkOf(e)};
          if skipped {
            skipped := false;
            i := 0;
          } else {
            i := i + 1;
          }
        }
      }
    }

    /** The peers reached over a link of the tree. */
    ghost function Flagged(tree: set<T.Link>): (r: set<Node>)
      reads this`connections
    {
      set q | q in connections && Pair(myself, q) in tree
    }

    /** Set status.mst on the connection of the edge or of its reverse, whichever is ours. */
    method FlagConnections(e: Edge, ghost tree: set<T.Link>)
      requires mst == Flagged(tree) && e.from != e.to
      modifies this`mst
      ensures mst == Flagged(tree + {LinkOf(e)})
    {
      if e.from == myself && e.to in connections {
        mst := mst + {e.to};
      }
      if e.to == myself && e.from in connections {
        mst := mst + {e.from};
      }
    }

    method StartingPoint() returns (visited: set<Node>)
      ensures visited == StartSet(g, reachable, 0)
    {
      for i := 0 to |g.byWeight|
        invariant StartSet(g, reachable, 0) == StartSet(g, reachable, i)
      {
        if g.byWeight[i].from in reachable {
          return {g.byWeight[i].from};
        }
      }
      return {};
    }

    /** broadcast_packet in MST mode: one copy to every flagged connection except the one
        behind from->nexthop, and one to ourselves unless we are the origin. */
    method BroadcastPacket(from: Node) returns (sent: seq<Node>, own: bool)
      requires from in info
      ensures own <==> from != myself
      ensures forall q :: q in sent <==> q in B.Sends(View(), from)
      ensures forall i, j :: 0 <= i < j < |sent| ==> sent[i] != sent[j]
    {
      own := from != myself;
      sent := [];
      var todo := connections;
      while todo != {}
        invariant todo <= connections
        invariant forall q :: q in sent <==> q in (connections - todo) * mst - {info[from].nexthop}
        invariant forall i, j :: 0 <= i < j < |sent| ==> sent[i] != sent[j]
        decreases todo
      {
        var c :| c in todo;
        todo := todo - {c};
        if c in mst && c != info[from].nexthop {
          assert c !in sent;
          sent := sent + [c];
        }
      }
    }

    /** graph(): routes first, then reachability, then the broadcast tree. */
    method UpdateGraph(standby: bool) returns (tree: set<T.Link>, device: Device)
      requires WellFormed(g) && myself in g.out && Ends(g, myself) && reachable <= g.out.Keys
      modifies this`info, this`reachable, this`validkey, this`mst
      ensures SoundRoutes(g, myself, info)
      ensures NoIndirect(g) ==> OptimalRoutes(g, myself, info)
      ensures IsComponent(g, myself, reachable)
      ensures tree == MstTree(g, reachable) && IsMinimumTree(g, reachable, tree)
      ensures mst == Flagged(tree)
      ensures NoIndirect(g) && (forall e | Usable(g, e) && e.from == myself :: e.to in connections) ==> B.RanGraph(g, myself, View())
    {
      hide WellFormed;
      hide OptimalRoutes;
      hide IsComponent;
      hide IsMinimumTree;
      hide MstTree;
      hide Sound;
      hide Reachable;
      hide Ends;
      SsspBfs();
      device := CheckReachability(standby);
      ReachableIsComponent(g, myself, info, reachable);
      tree := MstKruskal();
      MstIsMinimum(g, myself, reachable);
    }

    /** What the other daemons' theorems are about. */
    ghost function View(): (v: B.View)
      reads this
    {
      B.View(info, reachable, connections, mst)
    }
  }

  /** The other nodes found reachable so far, and those that were not before, or no longer are. */
  datatype Tally = Tally(now: set<Node>, up: set<Node>, down: set<Node>)

  ghost function Tallying(visited: set<Node>, me: Node, was: set<Node>, t: Tally, n: Node): (r: Tally) {
    if n == me then t
    else if n in visited then Tally(t.now + {n}, if n in was then t.up else t.up + {n}, t.down)
    else Tally(t.now, t.up, if n in was then t.down + {n} else t.down)
  }

  ghost predicate Tallied(visited: set<Node>, me: Node, was: set<Node>, keys: set<Node>, done: set<Node>,
                          reachable: set<Node>, validkey: set<Node>, t: Tally) {
    && reachable == (was - done) + visited * done
    && (forall n :: n in validkey <==> n in keys && (n in reachable <==> n in was))
    && t.now == visited * done - {me} && t.up == t.now - was && t.down == was * done - visited - {me}
  }

  lemma TallyStart(visited: set<Node>, me: Node, was: set<Node>, keys: set<Node>)
    ensures Tallied(visited, me, was, keys, {}, was, keys, Tally({}, {}, {}))
  {
  }

  lemma TallyStep(visited: set<Node>, me: Node, was: set<Node>, keys: set<Node>, done: set<Node>,
                  reachable: set<Node>, validkey: set<Node>, t: Tally, n: Node, reachable': set<Node>, validkey': set<Node>)
    requires Tallied(visited, me, was, keys, done, reachable, validkey, t) && n !in done
    requires reachable' == if n in visited then reachable + {n} else reachable - {n}
    requires validkey' == if (n in visited) != (n in reachable) then validkey - {n} else validkey
    ensures Tallied(visited, me, was, keys, done + {n}, reachable', validkey', Tallying(visited, me, was, t, n))
  {
  }

  lemma TallyCount(visited: set<Node>, me: Node, was: set<Node>, keys: set<Node>, done: set<Node>,
                   reachable: set<Node>, validkey: set<Node>, t: Tally, n: Node)
    requires Tallied(visited, me, was, keys, done, reachable, validkey, t) && n !in done
    ensures n in reachable <==> n in was
    ensures var r := Tallying(visited, me, was, t, n);
            && |r.now| == |t.now| + (if n != me && n in visited then 1 else 0)
            && |r.up| == |t.up| + (if n != me && n in visited && n !in was then 1 else 0)
            && |r.down| == |t.down| + (if n != me && n !in visited && n in was then 1 else 0)
  {
  }

  /** The three counts tell what they are counts of. */
  lemma TallyDone(visited: set<Node>, me: Node, was: set<Node>, keys: set<Node>, done: set<Node>,
                  reachable: set<Node>, validkey: set<Node>, t: Tally)
    requires Tallied(visited, me, was, keys, done, reachable, validkey, t) && visited <= done && was <= done
    ensures reachable == visited && (forall n :: n in validkey <==> n in keys && (n in reachable <==> n in was))
    ensures |t.now| == 0 <==> reachable - {me} == {}
    ensures |t.now| == 0 ==> (|t.down| == 0 <==> was - {me} == {})
    ensures |t.now| == |t.up| <==> (reachable - {me}) !! was
  {
    assert reachable == visited;
    assert t.now == reachable - {me};
    T.Cardinality(t.up, t.now);
    if t.now == {} {
      assert t.down == was - {me};
    }
    assert t.up == t.now <==> t.now !! was;
  }

  ghost function Front(ns: seq<Node>, i: nat): (r: set<Node>)
    requires i <= |ns|
  {
    set n | n in ns[..i]
  }

  lemma TallyTurn(g: Graph, visited: set<Node>, me: Node, was: set<Node>, keys: set<Node>, i: nat,
                  reachable: set<Node>, validkey: set<Node>, t: Tally, reachable': set<Node>, validkey': set<Node>)
    requires WellFormed(g) && i < |g.nodes|
    requires Tallied(visited, me, was, keys, Front(g.nodes, i), reachable, validkey, t)
    requires var n := g.nodes[i];
             && reachable' == (if n in visited then reachable + {n} else reachable - {n})
             && validkey' == (if (n in visited) != (n in reachable) then validkey - {n} else validkey)
    ensures var n, r := g.nodes[i], Tallying(visited, me, was, t, g.nodes[i]);
            && (n in reachable' <==> n in visited)
            && Tallied(visited, me, was, keys, Front(g.nodes, i + 1), reachable', validkey', r)
            && |r.now| == |t.now| + (if n != me && n in visited then 1 else 0)
            && |r.up| == |t.up| + (if n != me && n in visited && n !in reachable then 1 else 0)
            && |r.down| == |t.down| + (if n != me && n !in visited && n in reachable then 1 else 0)
  {
    hide *;
    var n := g.nodes[i];
    FrontGrows(g, i);
    TallyCount(visited, me, was, keys, Front(g.nodes, i), reachable, validkey, t, n);
    TallyStep(visited, me, was, keys, Front(g.nodes, i), reachable, validkey, t, n, reachable', validkey');
  }

  lemma FrontEnds(g: Graph)
    requires WellFormed(g)
    ensures Front(g.nodes, 0) == {} && Front(g.nodes, |g.nodes|) == g.out.Keys
  {
    assert g.nodes[..|g.nodes|] == g.nodes;
  }

  lemma FrontGrows(g: Graph, i: nat)
    requires WellFormed(g) && i < |g.nodes|
    ensures var n := g.nodes[i]; n in g.out && Front(g.nodes, i + 1) == Front(g.nodes, i) + {n} && n !in Front(g.nodes, i)
  {
    assert g.nodes[..i + 1] == g.nodes[..i] + [g.nodes[i]];
  }

  lemma EdgeKnown(g: Graph, e: Edge)
    requires WellFormed(g) && e in g.byWeight
    ensures e.from in g.out && e.to in g.out && e.from != e.to
  {
  }

  lemma ReachableIsComponent(g: Graph, me: Node, info: map<Node, Info>, c: set<Node>)
    requires SoundRoutes(g, me, info) && forall n :: n in c <==> n in info && info[n].visited
    ensures IsComponent(g, me, c)
  {
    forall x | Reachable(g, me, x)
      ensures x in info
    {
      var p :| IsWalk(g, me, p, x);
    }
  }
}
