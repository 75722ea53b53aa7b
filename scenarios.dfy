/**
 The lineage scenarios of the impart tests, stated as lemmas about the start
 gate on a fixed graph. The fixture acknowledges children and accepts
 disciples, which stores the child-of or disciple-of edge in the senior's own
 relation map; the junior's map is given the reverse edge with a kind outside
 the downward set.
 */
module LineageScenarios {
  import opened Lineage
  import opened ImpartAction

  const Grandparent: Id := 1
  const Parent: Id := 2
  const Child: Id := 3
  const Grandchild: Id := 4
  const Grandmaster: Id := 5
  const Master: Id := 6
  const Disciple: Id := 7
  const Granddisciple: Id := 8

  const ParentOf: Relation := Other("is parent of")
  const MasterOf: Relation := Other("is master of")

  /** The fixture's family: grandparent -> parent -> {child, grandchild};
      and its sect: grandmaster -> master -> {disciple, granddisciple}. */
  function FixtureGraph(): Graph
  {
    map[
      Grandparent := map[Parent := IsChildOf],
      Parent := map[Grandparent := ParentOf, Child := IsChildOf, Grandchild := IsChildOf],
      Child := map[Parent := ParentOf],
      Grandchild := map[Parent := ParentOf],
      Grandmaster := map[Master := IsDiscipleOf],
      Master := map[Grandmaster := MasterOf, Disciple := IsDiscipleOf, Granddisciple := IsDiscipleOf],
      Disciple := map[Master := MasterOf],
      Granddisciple := map[Master := MasterOf]
    ]
  }

  /** The fixture's cultivation levels. */
  function Level(a: Id): int
  {
    if a in {Grandparent, Grandmaster} then 100
    else if a in {Parent, Master} then 70
    else if a in {Child, Disciple} then 40
    else 10
  }

  /** The start gate for the fixture, with the target within observation range. */
  ghost function FixtureGate(giver: Id, target: Id): Verdict
  {
    StartGate(true,
              IsLineageDescendant(FixtureGraph(), giver, target, DownwardEdgeRelations,
                                  MaxDepthFamily, MaxDepthSect),
              Level(giver) - Level(target))
  }

  lemma TwoStepChain(g: Graph, es: set<Relation>, a: Id, b: Id, c: Id, maxFamily: nat, maxSect: nat)
    requires a != c && Permitted(g, es, a, b) && Permitted(g, es, b, c)
    requires Bump(g, a, b, IsChildOf) + Bump(g, b, c, IsChildOf) <= maxFamily
    requires Bump(g, a, b, IsDiscipleOf) + Bump(g, b, c, IsDiscipleOf) <= maxSect
    ensures IsLineageDescendant(g, a, c, es, maxFamily, maxSect)
  {
    var p := [a, b, c];
    assert p[..2] == [a, b] && [a, b][..1] == [a];
    assert Tally(g, [a], IsChildOf) == 0 && Tally(g, [a], IsDiscipleOf) == 0;
    assert FamilyDepth(g, [a, b]) == Bump(g, a, b, IsChildOf);
    assert SectDepth(g, [a, b]) == Bump(g, a, b, IsDiscipleOf);
    assert DescentWitness(g, es, a, c, maxFamily, maxSect, p);
  }

  /** An avatar with no permitted edge out has no descendant at all. */
  lemma NoWayDown(g: Graph, es: set<Relation>, a: Id, target: Id, maxFamily: nat, maxSect: nat)
    requires forall b :: !Permitted(g, es, a, b)
    ensures !IsLineageDescendant(g, a, target, es, maxFamily, maxSect)
  {
    forall p | |p| >= 2 && p[0] == a
      ensures !LineagePath(g, es, p)
    {
      assert !Permitted(g, es, p[0], p[1]);
    }
  }

  /** A parent may impart to its child. */
  lemma ParentToChild()
    ensures FixtureGate(Parent, Child) == Allowed
  {
    DirectEdge(FixtureGraph(), DownwardEdgeRelations, Parent, Child, MaxDepthFamily, MaxDepthSect);
  }

  /** A child may not impart to its parent: the parent is not its junior. */
  lemma ChildToParent()
    ensures FixtureGate(Child, Parent) == Refused(NotDownstreamJunior)
  {
    NoWayDown(FixtureGraph(), DownwardEdgeRelations, Child, Parent, MaxDepthFamily, MaxDepthSect);
  }

  /** A grandparent may impart to a grandchild: family depth 2 is within the cap. */
  lemma GrandparentToGrandchild()
    ensures FixtureGate(Grandparent, Grandchild) == Allowed
  {
    TwoStepChain(FixtureGraph(), DownwardEdgeRelations, Grandparent, Parent, Grandchild,
                 MaxDepthFamily, MaxDepthSect);
  }

  /** A master may impart to a disciple. */
  lemma MasterToDisciple()
    ensures FixtureGate(Master, Disciple) == Allowed
  {
    DirectEdge(FixtureGraph(), DownwardEdgeRelations, Master, Disciple, MaxDepthFamily, MaxDepthSect);
  }

  /** A disciple may not impart to its master. */
  lemma DiscipleToMaster()
    ensures FixtureGate(Disciple, Master) == Refused(NotDownstreamJunior)
  {
    NoWayDown(FixtureGraph(), DownwardEdgeRelations, Disciple, Master, MaxDepthFamily, MaxDepthSect);
  }

  /** A grandmaster may impart to a granddisciple: sect depth 2 is within the cap. */
  lemma GrandmasterToGranddisciple()
    ensures FixtureGate(Grandmaster, Granddisciple) == Allowed
  {
    TwoStepChain(FixtureGraph(), DownwardEdgeRelations, Grandmaster, Master, Granddisciple,
                 MaxDepthFamily, MaxDepthSect);
  }

  /** A straight line of four generations: 1 -> 2 -> 3 -> 4, all child-of. */
  function GenerationLine(): Graph
  {
    map[1 := map[2 := IsChildOf], 2 := map[3 := IsChildOf], 3 := map[4 := IsChildOf]]
  }

  /** Every chain from the head of the line walks down it one generation per step. */
  lemma {:induction false} LineChain(p: seq<Id>)
    requires |p| >= 1 && p[0] == 1 && LineagePath(GenerationLine(), DownwardEdgeRelations, p)
    ensures |p| <= 4 && p[|p| - 1] == |p|
    ensures FamilyDepth(GenerationLine(), p) == |p| - 1
  {
    if |p| >= 2 {
      var q := p[..|p| - 1];
      assert LineagePath(GenerationLine(), DownwardEdgeRelations, q) by {
        forall i | 0 <= i < |q| - 1 ensures Permitted(GenerationLine(), DownwardEdgeRelations, q[i], q[i + 1]) {
          assert q[i] == p[i] && q[i + 1] == p[i + 1];
        }
      }
      LineChain(q);
      assert Permitted(GenerationLine(), DownwardEdgeRelations, p[|p| - 2], p[|p| - 1]);
    }
  }

  /** On the line, two generations down is within the family cap of 2 and
      three generations down is beyond it. */
  lemma FamilyDepthBoundary()
    ensures IsLineageDescendant(GenerationLine(), 1, 3, DownwardEdgeRelations, MaxDepthFamily, MaxDepthSect)
    ensures !IsLineageDescendant(GenerationLine(), 1, 4, DownwardEdgeRelations, MaxDepthFamily, MaxDepthSect)
  {
    TwoStepChain(GenerationLine(), DownwardEdgeRelations, 1, 2, 3, MaxDepthFamily, MaxDepthSect);
    forall p | |p| >= 2 && p[0] == 1 && p[|p| - 1] == 4 && LineagePath(GenerationLine(), DownwardEdgeRelations, p)
      ensures FamilyDepth(GenerationLine(), p) > MaxDepthFamily
    {
      LineChain(p);
    }
  }
}
