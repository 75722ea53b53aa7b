# Impart: downstream-lineage gate and lifecycle

This project models the core of the cultivation simulator's *impart* mutual
action. A senior avatar passes cultivation experience to a junior, but only
to a *downstream junior*: an avatar reached from the giver by following
"is child of" and "is disciple of" edges. Each avatar holds its own relation
map. Family depth counts the child-of steps and sect depth counts the
disciple-of steps, and each is capped separately at 2.

The project has four modules:

- `Lineage` (`lineage.dfy`) models the relation graph and gives the
  declarative meaning of the check. `IsLineageDescendant` holds when some
  chain of permitted edges leads from the giver to another avatar with both
  depths within their caps. The lemmas cover how each step moves the two
  depths, and show that edges of kinds outside the followed set never matter.
- `LineageSearch` (`lineage_search.dfy`) models the breadth-first search over
  `(avatar, family depth, sect depth)` states as imperative Dafny: a queue, a
  visited set and an inner loop over one avatar's relations. The search is
  proved to answer exactly `IsLineageDescendant`, in both directions.
  - It never visits a state twice.
  - It never explores more states than the bounded state space holds, which
    is also how it is shown to terminate.
- `ImpartAction` (`impart.dfy`) covers the action itself.
  - The start gate checks, in this order: observation range, then lineage,
    then a level gap of at least 20. The first failing check decides the
    refusal.
  - Python's `str.strip()` is modelled over the full `str.isspace()` set, and
    the lemmas characterise exactly which feedback counts as acceptance.
  - The `Impart` class holds the outcome fields `success` and `expGain`. Its
    methods `Start`, `SettleFeedback`, `ApplyImpartGain` and `Finish` update
    them as the action's lifecycle does.
- `LineageScenarios` (`scenarios.dfy`) rebuilds the family and sect fixture
  of the lineage tests as a concrete graph. It proves each tested verdict,
  and the family-depth boundary on a four-generation line.

## Model

| member | source | states |
|---|---|---|
| LineageSearch.IsDescendantByRelation | src/classes/mutual_action/impart.py:39-74 | The BFS answers true exactly when the target is not the giver and some permitted chain from the giver reaches it with family and sect depth each within its cap. The giver itself is rejected before any search. The explored states are distinct and lie in the bounded state space. |
| LineageSearch.ScanRelations | src/classes/mutual_action/impart.py:54-72 | Scanning one dequeued avatar's relations skips kinds outside the edge set and steps over a cap. It returns true only on a real descent to the target. Otherwise it enqueues each new in-bound state once, keeping the search invariant: the visited set equals the queue's history, every visited state is reachable, and every fully scanned state has all its successors visited. |
| LineageSearch.Enqueue | src/classes/mutual_action/impart.py:68-72 | Adding an unvisited, reachable, non-target state to the visited set and to the queue tail keeps the queue free of duplicates and leaves scanned states closed. |
| LineageSearch.NoMissedChain | src/classes/mutual_action/impart.py:53-74 | When the queue runs dry without meeting the target, no permitted chain within the caps leads to it, so the final False is correct. |
| LineageSearch.FollowEdge | src/classes/mutual_action/impart.py:56-66 | Following a permitted in-cap edge from a reachable state reaches the next state. When that edge leads to the target, the target is a lineage descendant. |
| LineageSearch.ClosedSetHoldsChains | src/classes/mutual_action/impart.py:50-72 | In a visited set closed under in-cap successors that contains the start state, every in-cap chain from the giver ends in a visited state carrying that chain's depths. |
| LineageSearch.InitialSearch | src/classes/mutual_action/impart.py:50-51 | The initial queue and visited set, each holding only the giver at depths (0, 0), satisfy the search invariant. |
| LineageSearch.SearchSize | src/classes/mutual_action/impart.py:51 | A duplicate-free trail whose states are all in the bounded state space is no longer than that space. |
| LineageSearch.Growth | src/classes/mutual_action/impart.py:69-71 | Adding a new state to the visited set strictly shrinks the part of the state space still unvisited, so the search terminates. |
| LineageSearch.DistinctCard | src/classes/mutual_action/impart.py:51 | A duplicate-free trail has as many states as the set of its states. |
| Lineage.AxisIndependence | src/classes/mutual_action/impart.py:60-61 | A child-of step adds one to the family depth only, a disciple-of step adds one to the sect depth only, and any other step adds to neither. |
| Lineage.TallyOfPrefix | src/classes/mutual_action/impart.py:60-63 | A prefix of a chain never has a greater depth than the chain, so a chain within its caps is within them at every step. |
| Lineage.DirectEdge | src/classes/mutual_action/impart.py:56-66 | One permitted edge from the giver to another avatar, within the caps, makes that avatar a descendant. |
| Lineage.OnlyPermittedEdgesMatter | src/classes/mutual_action/impart.py:57-58 | Two graphs with the same permitted edges give the same verdict for every giver, target and caps, whatever their other edges. |
| Lineage.TallyAgrees | src/classes/mutual_action/impart.py:57-61 | Along a chain of permitted edges, both depths are the same in two graphs that agree on permitted edges. |
| Lineage.TransferWitness | src/classes/mutual_action/impart.py:57-63 | A descent chain in one graph is a descent chain in any graph that agrees with it on permitted edges. |
| Lineage.ForbiddenEdgeIgnored | src/classes/mutual_action/impart.py:57-58 | Adding an edge of a kind outside the edge set never changes the verdict, even when that edge leads straight from giver to target. |
| ImpartAction.StartGate | src/classes/mutual_action/impart.py:84-101 | The gate allows exactly when the target is in range, is a downstream junior and is at least 20 levels below the giver. Otherwise it refuses with the first failing check: range, then lineage, then the gap, reporting the gap. |
| ImpartAction.Impart.CanStart | src/classes/mutual_action/impart.py:84-101 | The method's verdict is the start gate applied to the observation flag, the lineage relation with caps 2 and 2 over both descent kinds, and the giver's level minus the target's. It runs the search only when the target is in range. |
| ImpartAction.Impart.IsAllowedDownwardTarget | src/classes/mutual_action/impart.py:76-82 | True exactly when the target is a lineage descendant over child-of and disciple-of edges with family and sect depth each at most 2. |
| ImpartAction.TrimStart | src/classes/mutual_action/impart.py:124 | The result is a suffix of the input. Everything removed is whitespace, and the result does not start with whitespace. |
| ImpartAction.TrimEnd | src/classes/mutual_action/impart.py:124 | The result is a prefix of the input. Everything removed is whitespace, and the result does not end with whitespace. |
| ImpartAction.Leading | src/classes/mutual_action/impart.py:124 | The leading whitespace run lies in the input, consists only of whitespace and is followed by a non-whitespace character. |
| ImpartAction.Trim | src/classes/mutual_action/impart.py:124 | The stripped text is the slice of the input after its leading whitespace run. Neither of its ends is whitespace, and everything after it is whitespace. |
| ImpartAction.TrimStartPadded | src/classes/mutual_action/impart.py:124 | Whitespace put before a text that does not start with whitespace is exactly what is trimmed from the start. |
| ImpartAction.TrimEndPadded | src/classes/mutual_action/impart.py:124 | Whitespace put after a text that does not end with whitespace is exactly what is trimmed from the end. |
| ImpartAction.TrimPadded | src/classes/mutual_action/impart.py:124 | Stripping a text padded with whitespace on both sides gives back the text, whenever its own ends are not whitespace. |
| ImpartAction.PaddedTrims | src/classes/mutual_action/impart.py:124-125 | A word padded with whitespace at a given position strips to that word. |
| ImpartAction.TrimsTo | src/classes/mutual_action/impart.py:124-125 | A text strips to a word whose ends are not whitespace exactly when it is that word padded with whitespace on both sides. |
| ImpartAction.AcceptedFeedback | src/classes/mutual_action/impart.py:124-125 | The feedback counts as acceptance exactly when it is "Accept" with only Python whitespace around it. |
| ImpartAction.Impart.Start | src/classes/mutual_action/impart.py:103-121 | Starting clears the outcome (not successful, gain 0). The start event names the giver, followed by the target's id when the target was found. |
| ImpartAction.Impart.SettleFeedback | src/classes/mutual_action/impart.py:123-129 | On "Accept" after stripping, the action is successful, records a gain of 2000 and adds 2000 to the target's experience. On any other feedback it is unsuccessful, and both the recorded gain and the target are unchanged. |
| ImpartAction.Impart.ApplyImpartGain | src/classes/mutual_action/impart.py:131-134 | Adds 100·5·4 = 2000 to the target's experience and records that amount as the gain, without touching the success flag. |
| ImpartAction.Impart.Finish | src/classes/mutual_action/impart.py:136-157 | Finishing with no target, or after a refusal, yields no event. With a target after acceptance it yields one event naming giver and target and carrying the recorded gain. |
| ImpartAction.Avatar.AddExp | src/classes/mutual_action/impart.py:133 | The target's experience grows by exactly the amount given. |
| ImpartAction.ImpartRound | src/classes/mutual_action/impart.py:103-157 | A round of start, feedback and finish against a found target yields one gain event of 2000 exactly when the feedback is an acceptance. Only then does the target's experience grow, by 2000; otherwise it is unchanged. |
| LineageScenarios.ParentToChild | tests/test_impart_lineage_downward_only.py:77-79 | Parent to child (levels 70 to 40, in range) is allowed. |
| LineageScenarios.ChildToParent | tests/test_impart_lineage_downward_only.py:81-83 | Child to parent is refused because the parent is not a downstream junior. |
| LineageScenarios.GrandparentToGrandchild | tests/test_impart_lineage_downward_only.py:85-87 | Grandparent to grandchild, at family depth 2, is allowed. |
| LineageScenarios.MasterToDisciple | tests/test_impart_lineage_downward_only.py:89-91 | Master to disciple is allowed. |
| LineageScenarios.DiscipleToMaster | tests/test_impart_lineage_downward_only.py:93-95 | Disciple to master is refused because the master is not a downstream junior. |
| LineageScenarios.GrandmasterToGranddisciple | tests/test_impart_lineage_downward_only.py:97-99 | Grandmaster to granddisciple, at sect depth 2, is allowed. |
| LineageScenarios.TwoStepChain | tests/test_impart_lineage_downward_only.py:52-59 | Two permitted steps whose depths fit the caps make the end a descendant of the start. |
| LineageScenarios.NoWayDown | tests/test_impart_lineage_downward_only.py:81-83 | An avatar with no permitted edge out has no descendants. |
| LineageScenarios.LineChain | src/classes/mutual_action/impart.py:60-62 | On a four-generation child-of line, every chain from the head walks down one generation per step, and its family depth is its number of steps. |
| LineageScenarios.FamilyDepthBoundary | src/classes/mutual_action/impart.py:60-63 | On that line, two generations down is within the family cap of 2 and three generations down is beyond it. |

## Left out

- Observation range (`is_within_observation`) is computed elsewhere. It is an input flag of `CanStart`.
- Translated messages (`t(...)`) are replaced by the `Refusal` datatype. The level-gap refusal carries the gap it would print.
- Event text, the month stamp and avatar names are left out. Events keep their related avatar ids and the gain.
- `add_exp` is modelled only as adding to a counter. Cultivation breakthroughs and other effects of experience are not part of this model.
- Resolving a target by name (`_get_target_avatar`) is not part of this model. Its result is an `Option<Avatar>`.
- The cooldown decorator, the `MutualAction` base class and its public `can_start` and feedback dispatch are not part of this model. `finish` is asynchronous in the source and is modelled as a plain method.
- Avatar identity: the source compares avatars with `is` and keys visited states by `str(id)`. The model identifies avatars by their unique ids, so the two comparisons coincide.
- Relation maps are iterated in dictionary order in the source. The model picks the next edge arbitrarily, and the proved answer does not depend on the order.
- The relation graph is a value that does not change during the search. Concurrent mutation of relations is not modelled.
- LineageSearch.IsDescendantByRelation: depth caps are `nat`. A negative cap would make the source reject every step, since even a step of the other kind leaves that depth at 0, which exceeds the cap. That case is not modelled.
- `_impart_success` and `_impart_exp_gain` exist in the source only once `start` has run. The model's constructor sets them to the values `start` sets.
- The relation kinds the test fixture stores on the junior side (`acknowledge_child`, `accept_disciple`) are not part of this model. The scenarios give juniors a back-edge of a kind outside the followed set. By `Lineage.ForbiddenEdgeIgnored`, any such kind leads to the same verdicts.
