/**
 The relationship graph that the impart action consults, and the declarative
 meaning of "target is a downstream junior of giver": a chain of permitted
 edges leading away from the giver, whose child-of edges and disciple-of edges
 are each counted against their own cap.
 */
module Lineage {

  /** Avatars are known by a unique identifier. */
  type Id = nat

  /** The kind carried by an edge of an avatar's relation map. Only the two
      descent kinds matter to the lineage check; every other kind the game
      knows is an `Other`. */
  datatype Relation = IsChildOf | IsDiscipleOf | Other(name: string)

  /** For each avatar, its own relation map: the other avatar and the kind of
      the edge from this avatar to it. */
  type Graph = map<Id, map<Id, Relation>>

  /** The relation map of `n`; an avatar without an entry has no relations. */
  function Edges(g: Graph, n: Id): map<Id, Relation>
  {
    if n in g then g[n] else map[]
  }

  /** `a` has an edge to `b` whose kind is one of `es`. */
  predicate Permitted(g: Graph, es: set<Relation>, a: Id, b: Id)
  {
    b in Edges(g, a) && Edges(g, a)[b] in es
  }

  /** 1 when the edge from `a` to `b` exists and has kind `kind`, else 0. */
  function Bump(g: Graph, a: Id, b: Id, kind: Relation): nat
  {
    if b in Edges(g, a) && Edges(g, a)[b] == kind then 1 else 0
  }

  /** Every step of `p` follows a permitted edge. */
  ghost predicate LineagePath(g: Graph, es: set<Relation>, p: seq<Id>)
  {
    forall i | 0 <= i < |p| - 1 :: Permitted(g, es, p[i], p[i + 1])
  }

  /** The number of steps of `p` that follow an edge of kind `kind`. */
  function Tally(g: Graph, p: seq<Id>, kind: Relation): nat
  {
    if |p| < 2 then 0
    else Tally(g, p[..|p| - 1], kind) + Bump(g, p[|p| - 2], p[|p| - 1], kind)
  }

  /** The family depth of a chain: how many child-of steps it takes. */
  function FamilyDepth(g: Graph, p: seq<Id>): nat
  {
    Tally(g, p, IsChildOf)
  }

  /** The sect depth of a chain: how many disciple-of steps it takes. */
  function SectDepth(g: Graph, p: seq<Id>): nat
  {
    Tally(g, p, IsDiscipleOf)
  }

  /** `p` is a non-empty chain of permitted edges from `giver` to `target`
      whose family depth and sect depth are within their caps. */
  ghost predicate DescentWitness(g: Graph, es: set<Relation>, giver: Id, target: Id,
                                 maxFamily: nat, maxSect: nat, p: seq<Id>)
  {
    && |p| >= 2
    && p[0] == giver
    && p[|p| - 1] == target
    && LineagePath(g, es, p)
    && FamilyDepth(g, p) <= maxFamily
    && SectDepth(g, p) <= maxSect
  }

  /** The meaning of the lineage check: `target` is not the giver and some
      chain of permitted edges within both caps leads from the giver to it. */
  ghost predicate IsLineageDescendant(g: Graph, giver: Id, target: Id, es: set<Relation>,
                                      maxFamily: nat, maxSect: nat)
  {
    && target != giver
    && exists p :: DescentWitness(g, es, giver, target, maxFamily, maxSect, p)
  }

  /** Taking one more step adds to a depth exactly when the step's edge has
      that depth's kind: a child-of step never moves the sect depth and a
      disciple-of step never moves the family depth. */
  lemma AxisIndependence(g: Graph, p: seq<Id>, m: Id)
    requires |p| >= 1
    ensures var last := p[|p| - 1];
            && (m in Edges(g, last) && Edges(g, last)[m] == IsChildOf ==>
                  FamilyDepth(g, p + [m]) == FamilyDepth(g, p) + 1 &&
                  SectDepth(g, p + [m]) == SectDepth(g, p))
            && (m in Edges(g, last) && Edges(g, last)[m] == IsDiscipleOf ==>
                  FamilyDepth(g, p + [m]) == FamilyDepth(g, p) &&
                  SectDepth(g, p + [m]) == SectDepth(g, p) + 1)
            && (m !in Edges(g, last) || Edges(g, last)[m] !in {IsChildOf, IsDiscipleOf} ==>
                  FamilyDepth(g, p + [m]) == FamilyDepth(g, p) &&
                  SectDepth(g, p + [m]) == SectDepth(g, p))
  {
    assert (p + [m])[..|p|] == p;
  }

  /** Dropping steps from the end of a chain never increases a depth, so a
      chain within its caps stays within them at every step. */
  lemma {:induction false} TallyOfPrefix(g: Graph, p: seq<Id>, kind: Relation, n: nat)
    requires n <= |p|
    ensures Tally(g, p[..n], kind) <= Tally(g, p, kind)
    decreases |p|
  {
    if n < |p| {
      assert p[..|p| - 1][..n] == p[..n];
      TallyOfPrefix(g, p[..|p| - 1], kind, n);
    } else {
      assert p[..n] == p;
    }
  }

  /** A permitted edge from `a` to another avatar `b` makes `b` a descendant
      of `a` as soon as the caps leave room for that one step. */
  lemma DirectEdge(g: Graph, es: set<Relation>, a: Id, b: Id, maxFamily: nat, maxSect: nat)
    requires a != b && Permitted(g, es, a, b)
    requires Bump(g, a, b, IsChildOf) <= maxFamily && Bump(g, a, b, IsDiscipleOf) <= maxSect
    ensures IsLineageDescendant(g, a, b, es, maxFamily, maxSect)
  {
    assert [a, b][..1] == [a];
    assert Tally(g, [a], IsChildOf) == 0 && Tally(g, [a], IsDiscipleOf) == 0;
    assert FamilyDepth(g, [a, b]) == Bump(g, a, b, IsChildOf);
    assert SectDepth(g, [a, b]) == Bump(g, a, b, IsDiscipleOf);
    assert DescentWitness(g, es, a, b, maxFamily, maxSect, [a, b]);
  }

  /** Two graphs agree on the edges of kinds in `es`: the same permitted
      edges, with the same kinds. Edges of other kinds may differ freely. */
  ghost predicate AgreeOnPermitted(g1: Graph, g2: Graph, es: set<Relation>)
  {
    forall a, b ::
      (Permitted(g1, es, a, b) <==> Permitted(g2, es, a, b)) &&
      (Permitted(g1, es, a, b) ==> Edges(g1, a)[b] == Edges(g2, a)[b])
  }

  lemma {:induction false} TallyAgrees(g1: Graph, g2: Graph, es: set<Relation>, p: seq<Id>, kind: Relation)
    requires AgreeOnPermitted(g1, g2, es) && LineagePath(g1, es, p)
    ensures Tally(g1, p, kind) == Tally(g2, p, kind)
    decreases |p|
  {
    if |p| >= 2 {
      var q := p[..|p| - 1];
      assert LineagePath(g1, es, q) by {
        forall i | 0 <= i < |q| - 1 ensures Permitted(g1, es, q[i], q[i + 1]) {
          assert q[i] == p[i] && q[i + 1] == p[i + 1];
        }
      }
      TallyAgrees(g1, g2, es, q, kind);
      assert Permitted(g1, es, p[|p| - 2], p[|p| - 1]);
    }
  }

  lemma TransferWitness(g1: Graph, g2: Graph, es: set<Relation>, giver: Id, target: Id,
                        maxFamily: nat, maxSect: nat, p: seq<Id>)
    requires AgreeOnPermitted(g1, g2, es)
    requires DescentWitness(g1, es, giver, target, maxFamily, maxSect, p)
    ensures DescentWitness(g2, es, giver, target, maxFamily, maxSect, p)
  {
    assert LineagePath(g2, es, p) by {
      forall i | 0 <= i < |p| - 1 ensures Permitted(g2, es, p[i], p[i + 1]) {
        assert Permitted(g1, es, p[i], p[i + 1]);
      }
    }
    TallyAgrees(g1, g2, es, p, IsChildOf);
    TallyAgrees(g1, g2, es, p, IsDiscipleOf);
  }

  /** Edges whose kind is not in `es` are never followed: two graphs that
      agree on their permitted edges give the same verdict for every giver,
      target and pair of caps. */
  lemma OnlyPermittedEdgesMatter(g1: Graph, g2: Graph, es: set<Relation>, giver: Id, target: Id,
                                 maxFamily: nat, maxSect: nat)
    requires AgreeOnPermitted(g1, g2, es)
    ensures IsLineageDescendant(g1, giver, target, es, maxFamily, maxSect)
        <==> IsLineageDescendant(g2, giver, target, es, maxFamily, maxSect)
  {
    if IsLineageDescendant(g1, giver, target, es, maxFamily, maxSect) {
      var p :| DescentWitness(g1, es, giver, target, maxFamily, maxSect, p);
      TransferWitness(g1, g2, es, giver, target, maxFamily, maxSect, p);
    }
    if IsLineageDescendant(g2, giver, target, es, maxFamily, maxSect) {
      var p :| DescentWitness(g2, es, giver, target, maxFamily, maxSect, p);
      TransferWitness(g2, g1, es, giver, target, maxFamily, maxSect, p);
    }
  }

  /** Adding an edge of a kind outside `es` between two avatars not yet
      related never changes the verdict, even when that edge would lead
      straight from the giver to the target. */
  lemma ForbiddenEdgeIgnored(g: Graph, es: set<Relation>, a: Id, b: Id, kind: Relation,
                             giver: Id, target: Id, maxFamily: nat, maxSect: nat)
    requires kind !in es && b !in Edges(g, a)
    ensures IsLineageDescendant(g[a := Edges(g, a)[b := kind]], giver, target, es, maxFamily, maxSect)
        <==> IsLineageDescendant(g, giver, target, es, maxFamily, maxSect)
  {
    var h := g[a := Edges(g, a)[b := kind]];
    assert AgreeOnPermitted(h, g, es) by {
      forall x, y
        ensures (Permitted(h, es, x, y) <==> Permitted(g, es, x, y)) &&
                (Permitted(h, es, x, y) ==> Edges(h, x)[y] == Edges(g, x)[y])
      {
        if x == a && y != b {
          assert Edges(h, x) == Edges(g, a)[b := kind];
        }
      }
    }
    OnlyPermittedEdgesMatter(h, g, es, giver, target, maxFamily, maxSect);
  }
}
