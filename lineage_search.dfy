/**
 The breadth-first search that decides the lineage check, proved to answer
 exactly `Lineage.IsLineageDescendant`.
 */
module LineageSearch {
  import opened Lineage

  /** A search state: an avatar reached together with the family depth and the
      sect depth of the chain that reached it. */
  datatype State = State(node: Id, family: nat, sect: nat)

  /** The state reached by following the edge from `st.node` to `m`: the
      family depth grows only on a child-of edge, the sect depth only on a
      disciple-of edge. */
  function Next(g: Graph, st: State, m: Id): State
  {
    State(m, st.family + Bump(g, st.node, m, IsChildOf), st.sect + Bump(g, st.node, m, IsDiscipleOf))
  }

  /** The edge from `st.node` to `m` is followed: its kind is permitted and
      neither depth would exceed its cap. */
  predicate Advances(g: Graph, es: set<Relation>, maxFamily: nat, maxSect: nat, st: State, m: Id)
  {
    Permitted(g, es, st.node, m) && Next(g, st, m).family <= maxFamily && Next(g, st, m).sect <= maxSect
  }

  /** `p` is a chain of permitted edges from `giver` whose end and depths are
      those recorded in `st`. */
  ghost predicate ChainTo(g: Graph, es: set<Relation>, giver: Id, p: seq<Id>, st: State)
  {
    && |p| >= 1
    && p[0] == giver
    && p[|p| - 1] == st.node
    && LineagePath(g, es, p)
    && FamilyDepth(g, p) == st.family
    && SectDepth(g, p) == st.sect
  }

  ghost predicate Reached(g: Graph, es: set<Relation>, giver: Id, st: State)
  {
    exists p :: ChainTo(g, es, giver, p, st)
  }

  /** Every followed edge out of `st` avoids `target` and lands in `seen`. */
  ghost predicate Expanded(g: Graph, es: set<Relation>, maxFamily: nat, maxSect: nat,
                           target: Id, st: State, seen: set<State>)
  {
    forall m | Advances(g, es, maxFamily, maxSect, st, m) :: m != target && Next(g, st, m) in seen
  }

  /** Every avatar named in the graph, and the giver. */
  ghost function Nodes(g: Graph, giver: Id): set<Id>
  {
    {giver} + g.Keys + (set a, b | a in g && b in g[a] :: b)
  }

  /** The finite space of states within the caps. */
  ghost function StateSpace(g: Graph, giver: Id, maxFamily: nat, maxSect: nat): set<State>
  {
    set n, f: nat, s: nat | n in Nodes(g, giver) && f <= maxFamily && s <= maxSect :: State(n, f, s)
  }

  ghost predicate Distinct(s: seq<State>)
  {
    forall i, j | 0 <= i < j < |s| :: s[i] != s[j]
  }

  lemma {:induction false} DistinctCard(s: seq<State>)
    requires Distinct(s)
    ensures |set x | x in s| == |s|
  {
    if s != [] {
      var t := s[..|s| - 1];
      assert Distinct(t);
      DistinctCard(t);
      assert (set x | x in s) == (set x | x in t) + {s[|s| - 1]};
      assert s[|s| - 1] !in (set x | x in t);
    }
  }

  lemma Growth(u: set<State>, a: set<State>, b: set<State>)
    requires a < b <= u
    ensures |u - b| < |u - a|
  {
    assert exists x :: x in b && x !in a;
    var x :| x in b && x !in a;
    assert u - a == (u - b) + {x} + (b - a - {x});
    assert u == (u - b) + b && (u - b) !! b;
    assert u == (u - a) + a && (u - a) !! a;
  }

  lemma ExtendChain(g: Graph, es: set<Relation>, giver: Id, p: seq<Id>, st: State, m: Id)
    requires ChainTo(g, es, giver, p, st) && Permitted(g, es, st.node, m)
    ensures ChainTo(g, es, giver, p + [m], Next(g, st, m))
  {
    var q := p + [m];
    assert q[..|p|] == p;
    assert LineagePath(g, es, q) by {
      forall i | 0 <= i < |q| - 1 ensures Permitted(g, es, q[i], q[i + 1]) {
        if i < |p| - 1 {
          assert q[i] == p[i] && q[i + 1] == p[i + 1];
        }
      }
    }
  }

  /** A set of states that holds the start and is closed under followed edges
      holds the end state of every chain within the caps. */
  lemma {:induction false} ClosedSetHoldsChains(g: Graph, es: set<Relation>, giver: Id, target: Id,
                                                maxFamily: nat, maxSect: nat, seen: set<State>, p: seq<Id>)
    requires State(giver, 0, 0) in seen
    requires forall st | st in seen :: Expanded(g, es, maxFamily, maxSect, target, st, seen)
    requires |p| >= 1 && p[0] == giver && LineagePath(g, es, p)
    requires FamilyDepth(g, p) <= maxFamily && SectDepth(g, p) <= maxSect
    ensures State(p[|p| - 1], FamilyDepth(g, p), SectDepth(g, p)) in seen
    decreases |p|
  {
    if |p| >= 2 {
      var q := p[..|p| - 1];
      assert LineagePath(g, es, q) by {
        forall i | 0 <= i < |q| - 1 ensures Permitted(g, es, q[i], q[i + 1]) {
          assert q[i] == p[i] && q[i + 1] == p[i + 1];
        }
      }
      ClosedSetHoldsChains(g, es, giver, target, maxFamily, maxSect, seen, q);
      var st := State(q[|q| - 1], FamilyDepth(g, q), SectDepth(g, q));
      assert Permitted(g, es, p[|p| - 2], p[|p| - 1]);
      assert Next(g, st, p[|p| - 1]) == State(p[|p| - 1], FamilyDepth(g, p), SectDepth(g, p));
      assert Advances(g, es, maxFamily, maxSect, st, p[|p| - 1]);
    }
  }

  /** The queue is the part of `trail` not yet dequeued, `trail` lists each
      enqueued state once, and `visited` is the set of its states. */
  ghost predicate QueueShape(trail: seq<State>, head: nat, queue: seq<State>, visited: set<State>)
  {
    && head <= |trail|
    && queue == trail[head..]
    && Distinct(trail)
    && (forall st :: st in visited <==> st in trail)
  }

  /** Every visited state is reached by a permitted chain and is not the target. */
  ghost predicate Sound(g: Graph, es: set<Relation>, giver: Id, target: Id, visited: set<State>)
  {
    forall st | st in visited :: st.node != target && Reached(g, es, giver, st)
  }

  /** The first `n` states of `trail` have had all their edges followed. */
  ghost predicate ClosedUpTo(g: Graph, es: set<Relation>, maxFamily: nat, maxSect: nat, target: Id,
                             trail: seq<State>, n: nat, visited: set<State>)
  {
    forall i | 0 <= i < n && i < |trail| :: Expanded(g, es, maxFamily, maxSect, target, trail[i], visited)
  }

  /** Following a permitted edge within the caps from a reached state
      reaches the next state, and reaches the target when it leads there. */
  lemma FollowEdge(g: Graph, es: set<Relation>, giver: Id, target: Id, maxFamily: nat, maxSect: nat,
                   cur: State, m: Id)
    requires target != giver && Reached(g, es, giver, cur)
    requires Advances(g, es, maxFamily, maxSect, cur, m)
    ensures Reached(g, es, giver, Next(g, cur, m))
    ensures m == target ==> IsLineageDescendant(g, giver, target, es, maxFamily, maxSect)
  {
    var p :| ChainTo(g, es, giver, p, cur);
    ExtendChain(g, es, giver, p, cur, m);
    if m == target {
      assert DescentWitness(g, es, giver, target, maxFamily, maxSect, p + [m]);
    }
  }

  /** Enqueueing a state not yet visited keeps the queue bookkeeping and keeps
      every expanded state expanded. */
  lemma Enqueue(g: Graph, es: set<Relation>, giver: Id, maxFamily: nat, maxSect: nat, target: Id,
                trail: seq<State>, head: nat, queue: seq<State>, visited: set<State>, n: nat, st: State)
    requires QueueShape(trail, head, queue, visited) && st !in visited && n <= |trail|
    requires ClosedUpTo(g, es, maxFamily, maxSect, target, trail, n, visited)
    requires Sound(g, es, giver, target, visited) && st.node != target && Reached(g, es, giver, st)
    ensures Sound(g, es, giver, target, visited + {st})
    ensures QueueShape(trail + [st], head, queue + [st], visited + {st})
    ensures ClosedUpTo(g, es, maxFamily, maxSect, target, trail + [st], n, visited + {st})
  {
    var trail' := trail + [st];
    assert trail'[head..] == queue + [st];
    assert Distinct(trail') by {
      forall i, j | 0 <= i < j < |trail'| ensures trail'[i] != trail'[j] {
        if j == |trail| {
          assert trail[i] in visited;
        } else {
          assert trail[i] == trail'[i] && trail[j] == trail'[j];
        }
      }
    }
    forall i | 0 <= i < n && i < |trail'|
      ensures Expanded(g, es, maxFamily, maxSect, target, trail'[i], visited + {st})
    {
      assert trail'[i] == trail[i];
      assert Expanded(g, es, maxFamily, maxSect, target, trail[i], visited);
    }
  }

  /** The invariant of the search loop after `head` states have been dequeued. */
  ghost predicate SearchInv(g: Graph, es: set<Relation>, giver: Id, target: Id, maxFamily: nat, maxSect: nat,
                            trail: seq<State>, head: nat, queue: seq<State>, visited: set<State>)
  {
    && QueueShape(trail, head, queue, visited)
    && State(giver, 0, 0) in visited
    && visited <= StateSpace(g, giver, maxFamily, maxSect)
    && Sound(g, es, giver, target, visited)
    && ClosedUpTo(g, es, maxFamily, maxSect, target, trail, head, visited)
  }

  lemma InitialSearch(g: Graph, es: set<Relation>, giver: Id, target: Id, maxFamily: nat, maxSect: nat)
    requires target != giver
    ensures var start := State(giver, 0, 0);
            SearchInv(g, es, giver, target, maxFamily, maxSect, [start], 0, [start], {start})
  {
    var start := State(giver, 0, 0);
    assert ChainTo(g, es, giver, [giver], start);
    assert start in StateSpace(g, giver, maxFamily, maxSect);
  }

  /** One round of the search, for the state `cur` just dequeued: follow each
      relation of `cur.node` whose kind is permitted and whose depths stay
      within the caps; stop at once if it reaches `target`, otherwise enqueue
      the state it leads to unless that state was already visited. */
  method ScanRelations(g: Graph, es: set<Relation>, giver: Id, target: Id, maxFamily: nat, maxSect: nat,
                       cur: State, visited: set<State>, queue: seq<State>,
                       ghost trail: seq<State>, ghost head: nat)
    returns (found: bool, visited': set<State>, queue': seq<State>, ghost trail': seq<State>)
    requires target != giver && 1 <= head
    requires SearchInv(g, es, giver, target, maxFamily, maxSect, trail, head - 1, [cur] + queue, visited)
    ensures found ==> IsLineageDescendant(g, giver, target, es, maxFamily, maxSect)
    ensures QueueShape(trail', head, queue', visited') && visited <= visited'
    ensures visited' <= StateSpace(g, giver, maxFamily, maxSect)
    ensures visited' == visited ==> queue' == queue
    ensures !found ==> SearchInv(g, es, giver, target, maxFamily, maxSect, trail', head, queue', visited')
  {
    ghost var space := StateSpace(g, giver, maxFamily, maxSect);
    assert trail[head - 1..] == [cur] + queue;
    assert trail[head - 1] == cur && trail[head..] == queue;
    visited', queue', trail' := visited, queue, trail;
    var edges := Edges(g, cur.node);
    var todo := edges.Keys;
    while todo != {}
      invariant todo <= edges.Keys
      invariant QueueShape(trail', head, queue', visited') && trail'[head - 1] == cur
      invariant visited <= visited' <= space
      invariant visited' == visited ==> queue' == queue
      invariant Sound(g, es, giver, target, visited')
      invariant ClosedUpTo(g, es, maxFamily, maxSect, target, trail', head - 1, visited')
      invariant forall m | m in edges.Keys - todo && Advances(g, es, maxFamily, maxSect, cur, m) ::
                  m != target && Next(g, cur, m) in visited'
      decreases todo
    {
      var nxt :| nxt in todo;
      todo := todo - {nxt};
      var rel := edges[nxt];
      if rel !in es {
        continue;
      }
      var nextFamily := cur.family + (if rel == IsChildOf then 1 else 0);
      var nextSect := cur.sect + (if rel == IsDiscipleOf then 1 else 0);
      if nextFamily > maxFamily || nextSect > maxSect {
        continue;
      }
      var state := State(nxt, nextFamily, nextSect);
      assert state == Next(g, cur, nxt);
      assert cur in visited';
      FollowEdge(g, es, giver, target, maxFamily, maxSect, cur, nxt);
      if nxt == target {
        return true, visited', queue', trail';
      }
      if state in visited' {
        continue;
      }
      assert state in space by {
        assert cur.node in g && nxt in g[cur.node];
      }
      Enqueue(g, es, giver, maxFamily, maxSect, target, trail', head, queue', visited', head - 1, state);
      visited' := visited' + {state};
      queue' := queue' + [state];
      trail' := trail' + [state];
    }
    forall i | 0 <= i < head && i < |trail'|
      ensures Expanded(g, es, maxFamily, maxSect, target, trail'[i], visited')
    {
      if i < head - 1 {
        assert Expanded(g, es, maxFamily, maxSect, target, trail'[i], visited');
      }
    }
    return false, visited', queue', trail';
  }

  /** The lineage check of the impart action: breadth-first from `giver` over
      the permitted edges, pruning any edge that would take either depth past
      its cap, stopping as soon as `target` is reached. `explored` lists the
      states in the order they were enqueued. */
  method IsDescendantByRelation(g: Graph, giver: Id, target: Id, es: set<Relation>,
                                maxFamily: nat, maxSect: nat)
    returns (found: bool, ghost explored: seq<State>)
    ensures found <==> IsLineageDescendant(g, giver, target, es, maxFamily, maxSect)
    ensures target == giver ==> !found && explored == []
    ensures Distinct(explored)
    ensures forall st | st in explored :: st in StateSpace(g, giver, maxFamily, maxSect)
    ensures |explored| <= |StateSpace(g, giver, maxFamily, maxSect)|
  {
    if target == giver {
      return false, [];
    }
    var start := State(giver, 0, 0);
    var queue := [start];
    var visited := {start};
    ghost var trail := [start];
    ghost var head := 0;
    ghost var space := StateSpace(g, giver, maxFamily, maxSect);
    InitialSearch(g, es, giver, target, maxFamily, maxSect);

    while queue != []
      invariant SearchInv(g, es, giver, target, maxFamily, maxSect, trail, head, queue, visited)
      decreases |space - visited|, |queue|
    {
      var cur := queue[0];
      queue := queue[1..];
      head := head + 1;
      ghost var visited0 := visited;
      found, visited, queue, trail :=
        ScanRelations(g, es, giver, target, maxFamily, maxSect, cur, visited, queue, trail, head);
      if found {
        SearchSize(trail, visited, space);
        return true, trail;
      }
      if visited != visited0 {
        Growth(space, visited0, visited);
      }
    }

    NoMissedChain(g, es, giver, target, maxFamily, maxSect, trail, visited);
    SearchSize(trail, visited, space);
    return false, trail;
  }

  /** The size of the search: each state is enqueued once and lies in the
      state space. */
  lemma SearchSize(trail: seq<State>, visited: set<State>, space: set<State>)
    requires Distinct(trail) && (forall st :: st in visited <==> st in trail) && visited <= space
    ensures forall st | st in trail :: st in space
    ensures |trail| <= |space|
  {
    DistinctCard(trail);
    assert (set x | x in trail) == visited;
    assert space == visited + (space - visited) && visited !! (space - visited);
  }

  /** In a set of states closed under followed edges, no chain within the
      caps ends at the target. */
  lemma ChainMissesTarget(g: Graph, es: set<Relation>, giver: Id, target: Id, maxFamily: nat, maxSect: nat,
                          visited: set<State>, p: seq<Id>)
    requires State(giver, 0, 0) in visited
    requires forall st | st in visited :: Expanded(g, es, maxFamily, maxSect, target, st, visited)
    requires |p| >= 2 && p[0] == giver && LineagePath(g, es, p)
    requires FamilyDepth(g, p) <= maxFamily && SectDepth(g, p) <= maxSect
    ensures p[|p| - 1] != target
  {
    var q := p[..|p| - 1];
    assert LineagePath(g, es, q) by {
      forall i | 0 <= i < |q| - 1 ensures Permitted(g, es, q[i], q[i + 1]) {
        assert q[i] == p[i] && q[i + 1] == p[i + 1];
      }
    }
    assert FamilyDepth(g, q) <= FamilyDepth(g, p) && SectDepth(g, q) <= SectDepth(g, p);
    ClosedSetHoldsChains(g, es, giver, target, maxFamily, maxSect, visited, q);
    var st := State(q[|q| - 1], FamilyDepth(g, q), SectDepth(g, q));
    assert Permitted(g, es, p[|p| - 2], p[|p| - 1]);
    assert Next(g, st, p[|p| - 1]) == State(p[|p| - 1], FamilyDepth(g, p), SectDepth(g, p));
    assert Advances(g, es, maxFamily, maxSect, st, p[|p| - 1]);
  }

  /** Once the queue is empty every visited state has been expanded, so no
      chain within the caps can reach the target. */
  lemma NoMissedChain(g: Graph, es: set<Relation>, giver: Id, target: Id, maxFamily: nat, maxSect: nat,
                      trail: seq<State>, visited: set<State>)
    requires QueueShape(trail, |trail|, [], visited) && State(giver, 0, 0) in visited
    requires ClosedUpTo(g, es, maxFamily, maxSect, target, trail, |trail|, visited)
    ensures !IsLineageDescendant(g, giver, target, es, maxFamily, maxSect)
  {
    forall st | st in visited ensures Expanded(g, es, maxFamily, maxSect, target, st, visited) {
      var i :| 0 <= i < |trail| && trail[i] == st;
    }
    forall p | && |p| >= 2 && p[0] == giver && LineagePath(g, es, p)
               && FamilyDepth(g, p) <= maxFamily && SectDepth(g, p) <= maxSect
      ensures p[|p| - 1] != target
    {
      ChainMissesTarget(g, es, giver, target, maxFamily, maxSect, visited, p);
    }
  }
}
