/** The cumulative frontier that Time Machine shows for a moment
(src/components/history/TimeMachine.tsx). */
module Frontiers {
  import opened Timeline

  datatype Head = Head(peer: string, counter: int)

  /** A change counts for its peer at time t if it is not later and has a frontier. */
  predicate Counts(p: ChangePoint, t: int, peer: string) {
    p.timestamp <= t && p.peerId == peer && p.frontier != [] && p.frontier[0].1 >= 0
  }

  /** h names a peer with a change that counts, and that peer's largest counter. */
  ghost predicate IsHead(points: seq<ChangePoint>, t: int, h: Head) {
    && (exists p :: p in points && Counts(p, t, h.peer) && p.frontier[0].1 == h.counter)
    && (forall p :: p in points && Counts(p, t, h.peer) ==> p.frontier[0].1 <= h.counter)
  }

  predicate DistinctPeers(frontier: seq<Head>) {
    forall i, j :: 0 <= i < j < |frontier| ==> frontier[i].peer != frontier[j].peer
  }

  /** Exactly one head for every peer with a change that counts, and no other. */
  ghost predicate IsCumulative(points: seq<ChangePoint>, t: int, frontier: seq<Head>) {
    && DistinctPeers(frontier)
    && (forall h :: h in frontier <==> IsHead(points, t, h))
  }

  method CumulativeFrontier(points: seq<ChangePoint>, t: int) returns (frontier: seq<Head>)
    ensures IsCumulative(points, t, frontier)
  {
    var peerMaxCounters: map<string, int> := map[];
    var order: seq<string> := [];
    var i := 0;
    while i < |points|
      invariant i <= |points|
      invariant forall peer :: peer in order <==> peer in peerMaxCounters
      invariant forall a, b :: 0 <= a < b < |order| ==> order[a] != order[b]
      invariant forall peer :: peer in peerMaxCounters ==> IsHead(points[..i], t, Head(peer, peerMaxCounters[peer]))
      invariant forall p :: p in points[..i] && Counts(p, t, p.peerId) ==> p.peerId in peerMaxCounters
    {
      var cp := points[i];
      assert points[..i + 1] == points[..i] + [cp];
      if cp.timestamp <= t && cp.frontier != [] {
        var counter := cp.frontier[0].1;
        var current := if cp.peerId in peerMaxCounters then peerMaxCounters[cp.peerId] else -1;
        if counter > current {
          forall peer | peer in peerMaxCounters && peer != cp.peerId
            ensures IsHead(points[..i + 1], t, Head(peer, peerMaxCounters[peer]))
          {
            HeadSurvives(points[..i], cp, t, Head(peer, peerMaxCounters[peer]));
          }
          assert cp in points[..i + 1];
          if cp.peerId !in peerMaxCounters {
            order := order + [cp.peerId];
          } else {
            assert IsHead(points[..i], t, Head(cp.peerId, current));
          }
          peerMaxCounters := peerMaxCounters[cp.peerId := counter];
          assert IsHead(points[..i + 1], t, Head(cp.peerId, counter));
        } else {
          KeepHeads(points[..i], cp, t, peerMaxCounters);
        }
      } else {
        KeepHeads(points[..i], cp, t, peerMaxCounters);
      }
      i := i + 1;
    }
    assert points[..i] == points;

    frontier := [];
    var k := 0;
    while k < |order|
      invariant k == |frontier| <= |order|
      invariant forall j :: 0 <= j < k ==>
                  order[j] in peerMaxCounters && frontier[j] == Head(order[j], peerMaxCounters[order[j]])
    {
      assert order[k] in order;
      frontier := frontier + [Head(order[k], peerMaxCounters[order[k]])];
      k := k + 1;
    }
    forall h | IsHead(points, t, h) ensures h in frontier {
      assert h.peer in order;
      var j :| 0 <= j < |order| && order[j] == h.peer;
      HeadUnique(points, t, h, frontier[j]);
    }
  }

  lemma HeadSurvives(points: seq<ChangePoint>, cp: ChangePoint, t: int, h: Head)
    requires IsHead(points, t, h)
    requires Counts(cp, t, h.peer) ==> cp.frontier[0].1 <= h.counter
    ensures IsHead(points + [cp], t, h)
  {
    var p :| p in points && Counts(p, t, h.peer) && p.frontier[0].1 == h.counter;
    assert p in points + [cp];
  }

  lemma KeepHeads(points: seq<ChangePoint>, cp: ChangePoint, t: int, heads: map<string, int>)
    requires forall peer :: peer in heads ==> IsHead(points, t, Head(peer, heads[peer]))
    requires Counts(cp, t, cp.peerId) ==> cp.peerId in heads && cp.frontier[0].1 <= heads[cp.peerId]
    ensures forall peer :: peer in heads ==> IsHead(points + [cp], t, Head(peer, heads[peer]))
  {
    forall peer | peer in heads ensures IsHead(points + [cp], t, Head(peer, heads[peer])) {
      HeadSurvives(points, cp, t, Head(peer, heads[peer]));
    }
  }

  lemma HeadUnique(points: seq<ChangePoint>, t: int, g: Head, h: Head)
    requires IsHead(points, t, g) && IsHead(points, t, h) && g.peer == h.peer
    ensures g == h
  {
  }

  /** The frontier does not depend on the order of the change points. */
  lemma OrderIndependent(a: seq<ChangePoint>, b: seq<ChangePoint>, t: int, f: seq<Head>, g: seq<Head>)
    requires multiset(a) == multiset(b)
    requires IsCumulative(a, t, f) && IsCumulative(b, t, g)
    ensures forall h :: h in f <==> h in g
  {
    forall p ensures p in a <==> p in b {
      assert p in a <==> p in multiset(a);
      assert p in b <==> p in multiset(b);
    }
    forall h ensures IsHead(a, t, h) <==> IsHead(b, t, h) {
      if IsHead(a, t, h) {
        var p :| p in a && Counts(p, t, h.peer) && p.frontier[0].1 == h.counter;
        assert p in b;
      }
      if IsHead(b, t, h) {
        var p :| p in b && Counts(p, t, h.peer) && p.frontier[0].1 == h.counter;
        assert p in a;
      }
    }
  }

  lemma {:induction false} LargestExists(points: seq<ChangePoint>, t: int, peer: string)
    requires exists p :: p in points && Counts(p, t, peer)
    ensures exists c :: IsHead(points, t, Head(peer, c))
  {
    var last := points[|points| - 1];
    var rest := points[..|points| - 1];
    assert points == rest + [last];
    if exists p :: p in rest && Counts(p, t, peer) {
      LargestExists(rest, t, peer);
      var c :| IsHead(rest, t, Head(peer, c));
      if Counts(last, t, peer) && last.frontier[0].1 > c {
        assert last in points;
        assert IsHead(points, t, Head(peer, last.frontier[0].1));
      } else {
        HeadSurvives(rest, last, t, Head(peer, c));
      }
    } else {
      assert last in points;
      assert IsHead(points, t, Head(peer, last.frontier[0].1));
    }
  }

  /** As the moment moves on, no peer leaves the frontier and no counter falls. */
  lemma GrowsWithTime(points: seq<ChangePoint>, t: int, u: int, f: seq<Head>, g: seq<Head>, h: Head)
    requires t <= u && IsCumulative(points, t, f) && IsCumulative(points, u, g)
    requires h in f
    ensures exists c :: c >= h.counter && Head(h.peer, c) in g
  {
    assert IsHead(points, t, h);
    var p :| p in points && Counts(p, t, h.peer) && p.frontier[0].1 == h.counter;
    assert Counts(p, u, h.peer);
    LargestExists(points, u, h.peer);
    var c :| IsHead(points, u, Head(h.peer, c));
    assert Head(h.peer, c) in g;
  }
}
