/** Day 5: page-ordering rules `a|b` ("a must come before b") and update sequences of pages; part
    one sums the middle pages of the updates that obey the rules, part two re-orders the others
    with a rule-directed tree and sums their middle pages. */
module Day05 {
  import opened Results
  import opened Text

  // ---------------------------------------------------------------- rules

  /** The rules about one page: the pages it must come before and the pages it must come after. */
  datatype RuleSet = RuleSet(subject: int, mustBeBefore: seq<int>, mustBeAfter: seq<int>)

  function Before(ruleSets: map<int, RuleSet>, page: int): seq<int>
  {
    if page in ruleSets then ruleSets[page].mustBeBefore else []
  }

  function After(ruleSets: map<int, RuleSet>, page: int): seq<int>
  {
    if page in ruleSets then ruleSets[page].mustBeAfter else []
  }

  /** Recording the rule `left|right`: both pages get a rule set if they have none, `right` joins
      the pages `left` must come before, `left` joins the pages `right` must come after, and no
      other page's rules change. */
  function AddRule(ruleSets: map<int, RuleSet>, left: int, right: int): (r: map<int, RuleSet>)
    ensures r.Keys == ruleSets.Keys + {left, right}
    ensures forall page :: page in ruleSets && page != left && page != right ==> r[page] == ruleSets[page]
    ensures r[left].mustBeBefore == Before(ruleSets, left) + [right]
    ensures r[right].mustBeAfter == After(ruleSets, right) + [left]
    ensures left != right ==> r[left].mustBeAfter == After(ruleSets, left)
    ensures left != right ==> r[right].mustBeBefore == Before(ruleSets, right)
    ensures forall page :: page in r ==> r[page].subject == if page in ruleSets then ruleSets[page].subject else page
  {
    var withLeft := if left in ruleSets then ruleSets else ruleSets[left := RuleSet(left, [], [])];
    var withBoth := if right in withLeft then withLeft else withLeft[right := RuleSet(right, [], [])];
    var leftRuleSet := withBoth[left];
    var added := withBoth[left := leftRuleSet.(mustBeBefore := leftRuleSet.mustBeBefore + [right])];
    var rightRuleSet := added[right];
    added[right := rightRuleSet.(mustBeAfter := rightRuleSet.mustBeAfter + [left])]
  }

  /** The pages the rules mention. */
  function Pages(rules: seq<(int, int)>): set<int>
  {
    (set rule | rule in rules :: rule.0) + (set rule | rule in rules :: rule.1)
  }

  /** `rules` holds the rule `a|b`. */
  predicate HasRule(rules: seq<(int, int)>, a: int, b: int)
  {
    (a, b) in rules
  }

  /** The rule sets hold exactly the rules in `rules`: a rule set for each page they mention, and
      in it each page the rules put after it and each page the rules put before it. */
  ghost predicate Represents(ruleSets: map<int, RuleSet>, rules: seq<(int, int)>)
  {
    ruleSets.Keys == Pages(rules) &&
    (forall a, b :: a in ruleSets ==> (b in ruleSets[a].mustBeBefore <==> HasRule(rules, a, b))) &&
    (forall a, b :: b in ruleSets ==> (a in ruleSets[b].mustBeAfter <==> HasRule(rules, a, b)))
  }

  lemma NoRulesRepresented()
    ensures Represents(map[], [])
  {
  }

  /** Adding a rule to the rule sets adds it to the rules they hold. */
  lemma AddRuleRepresents(ruleSets: map<int, RuleSet>, rules: seq<(int, int)>, left: int, right: int)
    requires Represents(ruleSets, rules)
    ensures Represents(AddRule(ruleSets, left, right), rules + [(left, right)])
  {
    var r := AddRule(ruleSets, left, right);
    var more := rules + [(left, right)];
    AddedRulePages(rules, left, right);
    forall a, b | a in r ensures b in r[a].mustBeBefore <==> HasRule(more, a, b) {
      AddedBefore(ruleSets, rules, left, right, a, b);
    }
    forall a, b | b in r ensures a in r[b].mustBeAfter <==> HasRule(more, a, b) {
      AddedAfter(ruleSets, rules, left, right, a, b);
    }
  }

  lemma AddedBefore(ruleSets: map<int, RuleSet>, rules: seq<(int, int)>, left: int, right: int, a: int, b: int)
    requires Represents(ruleSets, rules)
    requires a in AddRule(ruleSets, left, right)
    ensures b in AddRule(ruleSets, left, right)[a].mustBeBefore <==> HasRule(rules + [(left, right)], a, b)
  {
    AddedRule(rules, left, right, a, b);
    assert a in ruleSets ==> (b in ruleSets[a].mustBeBefore <==> HasRule(rules, a, b));
  }

  lemma AddedAfter(ruleSets: map<int, RuleSet>, rules: seq<(int, int)>, left: int, right: int, a: int, b: int)
    requires Represents(ruleSets, rules)
    requires b in AddRule(ruleSets, left, right)
    ensures a in AddRule(ruleSets, left, right)[b].mustBeAfter <==> HasRule(rules + [(left, right)], a, b)
  {
    AddedRule(rules, left, right, a, b);
    assert b in ruleSets ==> (a in ruleSets[b].mustBeAfter <==> HasRule(rules, a, b));
  }

  lemma AddedRule(rules: seq<(int, int)>, left: int, right: int, a: int, b: int)
    ensures HasRule(rules + [(left, right)], a, b) <==> HasRule(rules, a, b) || (a == left && b == right)
  {
    assert (rules + [(left, right)])[|rules|] == (left, right);
  }

  lemma AddedRulePages(rules: seq<(int, int)>, left: int, right: int)
    ensures Pages(rules + [(left, right)]) == Pages(rules) + {left, right}
  {
    var more := rules + [(left, right)];
    assert forall rule :: rule in more <==> rule in rules || rule == (left, right);
    assert (left, right) in more;
  }

  // ---------------------------------------------------------------- checking an update

  /** The page at `subjectIndex` obeys its rule set: no page at or before it is one it must come
      before, and no page after it is one it must come after. */
  predicate ObeysRuleSet(subjectIndex: nat, update: seq<int>, ruleSet: RuleSet)
    requires subjectIndex < |update|
  {
    (forall j :: 0 <= j <= subjectIndex ==> update[j] !in ruleSet.mustBeBefore) &&
    (forall j :: subjectIndex < j < |update| ==> update[j] !in ruleSet.mustBeAfter)
  }

  /** Every page of the update that has a rule set obeys it. */
  predicate ValidUpdate(ruleSets: map<int, RuleSet>, update: seq<int>)
  {
    forall i :: 0 <= i < |update| && update[i] in ruleSets ==> ObeysRuleSet(i, update, ruleSets[update[i]])
  }

  /** The update puts the first page of every rule strictly before its second page. */
  predicate RespectsRules(rules: seq<(int, int)>, update: seq<int>)
  {
    forall i, j :: 0 <= i < |update| && 0 <= j < |update| && HasRule(rules, update[i], update[j]) ==> i < j
  }

  /** The check the solver makes is the puzzle's: every rule `a|b` whose pages both occur has
      every `a` before every `b`. As the backward scan starts at the page itself, a rule `a|a`
      rejects every update that holds `a`. */
  lemma ValidIffRespectsRules(ruleSets: map<int, RuleSet>, rules: seq<(int, int)>, update: seq<int>)
    requires Represents(ruleSets, rules)
    ensures ValidUpdate(ruleSets, update) <==> RespectsRules(rules, update)
  {
    if ValidUpdate(ruleSets, update) {
      forall i, j | 0 <= i < |update| && 0 <= j < |update| && HasRule(rules, update[i], update[j])
        ensures i < j
      {
        var rule := (update[i], update[j]);
        assert update[i] in Pages(rules) by {
          assert rule in rules && rule.0 == update[i];
        }
        assert ObeysRuleSet(i, update, ruleSets[update[i]]);
        assert update[j] in ruleSets[update[i]].mustBeBefore;
      }
    }
    if RespectsRules(rules, update) {
      forall i | 0 <= i < |update| && update[i] in ruleSets
        ensures ObeysRuleSet(i, update, ruleSets[update[i]])
      {
        forall j | 0 <= j <= i ensures update[j] !in ruleSets[update[i]].mustBeBefore {
        }
        forall j | i < j < |update| ensures update[j] !in ruleSets[update[i]].mustBeAfter {
        }
      }
    }
  }

  /** `TestRuleSet(subjectIndex, updateSequence, ruleSet)`: scans backwards from the page itself
      for a page it must come before, then forwards for a page it must come after. */
  method TestRuleSet(subjectIndex: nat, updateSequence: seq<int>, ruleSet: RuleSet) returns (obeys: bool)
    requires subjectIndex < |updateSequence|
    ensures obeys == ObeysRuleSet(subjectIndex, updateSequence, ruleSet)
  {
    var i2 := subjectIndex;
    while i2 >= 0
      invariant -1 <= i2 <= subjectIndex
      invariant forall j :: i2 < j <= subjectIndex ==> updateSequence[j] !in ruleSet.mustBeBefore
    {
      if updateSequence[i2] in ruleSet.mustBeBefore {
        return false;
      }
      i2 := i2 - 1;
    }
    for i3 := subjectIndex + 1 to |updateSequence|
      invariant forall j :: subjectIndex < j < i3 ==> updateSequence[j] !in ruleSet.mustBeAfter
    {
      if updateSequence[i3] in ruleSet.mustBeAfter {
        return false;
      }
    }
    return true;
  }

  // ---------------------------------------------------------------- the dependency tree

  /** A node of the dependency tree with the pages placed before it on the left and the pages
      placed after it on the right. */
  datatype Tree = Nil | Node(left: Tree, value: int, right: Tree)

  function Leaf(value: int): Tree
  {
    Node(Nil, value, Nil)
  }

  function Elements(t: Tree): multiset<int>
  {
    match t
    case Nil => multiset{}
    case Node(left, value, right) => Elements(left) + multiset{value} + Elements(right)
  }

  function Members(t: Tree): set<int>
  {
    match t
    case Nil => {}
    case Node(left, value, right) => Members(left) + {value} + Members(right)
  }

  lemma {:induction false} ElementsMembers(t: Tree)
    ensures forall page :: page in Elements(t) <==> page in Members(t)
  {
    if t.Node? {
      ElementsMembers(t.left);
      ElementsMembers(t.right);
    }
  }

  /** The walk down from `node` for a page with rule set `ruleSet`: left past a node the page must
      come before, right past a node it must come after, and a new leaf in the first empty place;
      a node it has no rule with ends the walk and the page is not placed. */
  function Walk(node: Tree, page: int, ruleSet: RuleSet): (t: Tree)
    requires node.Node?
    ensures t.Node? && t.value == node.value
  {
    if node.value in ruleSet.mustBeBefore then
      Node(if node.left.Nil? then Leaf(page) else Walk(node.left, page, ruleSet), node.value, node.right)
    else if node.value in ruleSet.mustBeAfter then
      Node(node.left, node.value, if node.right.Nil? then Leaf(page) else Walk(node.right, page, ruleSet))
    else node
  }

  /** Whether the walk ends in an empty place rather than at a node the page has no rule with. */
  predicate Places(node: Tree, ruleSet: RuleSet)
    requires node.Node?
  {
    if node.value in ruleSet.mustBeBefore then node.left.Nil? || Places(node.left, ruleSet)
    else if node.value in ruleSet.mustBeAfter then node.right.Nil? || Places(node.right, ruleSet)
    else false
  }

  /** A walk that places the page adds it once; one that does not leaves the tree as it was. */
  lemma {:induction false} WalkPlacesOnce(node: Tree, page: int, ruleSet: RuleSet)
    requires node.Node?
    ensures !Places(node, ruleSet) ==> Walk(node, page, ruleSet) == node
    ensures Places(node, ruleSet) ==> Elements(Walk(node, page, ruleSet)) == Elements(node) + multiset{page}
  {
    var t := Walk(node, page, ruleSet);
    if node.value in ruleSet.mustBeBefore {
      var left := if node.left.Nil? then Leaf(page) else Walk(node.left, page, ruleSet);
      assert t == Node(left, node.value, node.right);
      if node.left.Node? {
        WalkPlacesOnce(node.left, page, ruleSet);
      }
      if Places(node, ruleSet) {
        GrowOneSide(node.left, left, node.value, node.right, page);
      }
    } else if node.value in ruleSet.mustBeAfter {
      var right := if node.right.Nil? then Leaf(page) else Walk(node.right, page, ruleSet);
      assert t == Node(node.left, node.value, right);
      if node.right.Node? {
        WalkPlacesOnce(node.right, page, ruleSet);
      }
      if Places(node, ruleSet) {
        GrowOneSide(node.right, right, node.value, node.left, page);
      }
    }
  }

  /** A subtree that gains one page makes its parent gain that page, on either side. */
  lemma GrowOneSide(side: Tree, grown: Tree, value: int, other: Tree, page: int)
    requires Elements(grown) == Elements(side) + multiset{page}
    ensures Elements(Node(grown, value, other)) == Elements(Node(side, value, other)) + multiset{page}
    ensures Elements(Node(other, value, grown)) == Elements(Node(other, value, side)) + multiset{page}
  {
  }

  /** Every page below a node's left is one the rules put before that node's page (its rule set
      lists the node's page among those it must come before), and every page below its right is
      one the rules put after it. */
  ghost predicate Ordered(t: Tree, ruleSets: map<int, RuleSet>)
  {
    match t
    case Nil => true
    case Node(left, value, right) =>
      Ordered(left, ruleSets) && Ordered(right, ruleSets) &&
      (forall page :: page in Members(left) ==> page in ruleSets && value in ruleSets[page].mustBeBefore) &&
      (forall page :: page in Members(right) ==> page in ruleSets && value in ruleSets[page].mustBeAfter)
  }

  lemma {:induction false} WalkKeepsOrdered(node: Tree, page: int, ruleSets: map<int, RuleSet>)
    requires node.Node? && Ordered(node, ruleSets) && page in ruleSets
    ensures Ordered(Walk(node, page, ruleSets[page]), ruleSets)
  {
    var ruleSet := ruleSets[page];
    if node.value in ruleSet.mustBeBefore {
      var left := if node.left.Nil? then Leaf(page) else Walk(node.left, page, ruleSet);
      if node.left.Node? {
        WalkKeepsOrdered(node.left, page, ruleSets);
        WalkPlacesOnce(node.left, page, ruleSet);
        ElementsMembers(node.left);
        ElementsMembers(left);
      }
      assert Walk(node, page, ruleSet) == Node(left, node.value, node.right);
    } else if node.value in ruleSet.mustBeAfter {
      var right := if node.right.Nil? then Leaf(page) else Walk(node.right, page, ruleSet);
      if node.right.Node? {
        WalkKeepsOrdered(node.right, page, ruleSets);
        WalkPlacesOnce(node.right, page, ruleSet);
        ElementsMembers(node.right);
        ElementsMembers(right);
      }
      assert Walk(node, page, ruleSet) == Node(node.left, node.value, right);
    }
  }

  /** Every page after the first has a rule set (the solver looks it up unconditionally). */
  predicate HasRuleSets(ruleSets: map<int, RuleSet>, values: seq<int>)
  {
    forall i :: 1 <= i < |values| ==> values[i] in ruleSets
  }

  /** The tree after placing `values` in order: the first page at the top, every later one walked
      down from there. */
  function Build(ruleSets: map<int, RuleSet>, values: seq<int>): (t: Tree)
    requires HasRuleSets(ruleSets, values)
    ensures t.Nil? <==> values == []
    ensures values != [] ==> t.value == values[0]
  {
    if values == [] then Nil
    else
      var init := values[..|values| - 1];
      var page := values[|values| - 1];
      var t := Build(ruleSets, init);
      if t.Nil? then Leaf(page) else Walk(t, page, ruleSets[page])
  }

  /** The tree holds no page more often than the update does. */
  lemma {:induction false} BuildElements(ruleSets: map<int, RuleSet>, values: seq<int>)
    requires HasRuleSets(ruleSets, values)
    ensures Elements(Build(ruleSets, values)) <= multiset(values)
  {
    if values != [] {
      var init := values[..|values| - 1];
      var page := values[|values| - 1];
      assert values == init + [page];
      BuildElements(ruleSets, init);
      var t := Build(ruleSets, init);
      if t.Node? {
        WalkPlacesOnce(t, page, ruleSets[page]);
      }
    }
  }

  lemma {:induction false} BuildOrdered(ruleSets: map<int, RuleSet>, values: seq<int>)
    requires HasRuleSets(ruleSets, values)
    ensures Ordered(Build(ruleSets, values), ruleSets)
  {
    if values != [] {
      var init := values[..|values| - 1];
      BuildOrdered(ruleSets, init);
      if init != [] {
        WalkKeepsOrdered(Build(ruleSets, init), values[|values| - 1], ruleSets);
      }
    }
  }

  /** `GetDependencyTree(values)` */
  method GetDependencyTree(ruleSets: map<int, RuleSet>, values: seq<int>) returns (topNode: Tree)
    requires HasRuleSets(ruleSets, values)
    ensures topNode == Build(ruleSets, values)
  {
    topNode := Nil;
    for i := 0 to |values|
      invariant topNode == Build(ruleSets, values[..i])
    {
      assert values[..i + 1][..i] == values[..i];
      var updatePartNumber := values[i];
      if topNode.Nil? {
        topNode := Leaf(updatePartNumber);
        continue;
      }
      var ruleSet := ruleSets[updatePartNumber];
      topNode := Walk(topNode, updatePartNumber, ruleSet);
    }
    assert values[..|values|] == values;
  }

  /** `GetNodeResult(node)`: the left subtree's pages, the node's page, the right subtree's pages. */
  function InOrder(t: Tree): (pages: seq<int>)
    ensures |pages| == |Elements(t)|
    ensures t.Node? ==> t.value in pages
  {
    match t
    case Nil => []
    case Node(left, value, right) => InOrder(left) + [value] + InOrder(right)
  }

  /** Collapsing the tree keeps exactly the pages placed in it. */
  lemma {:induction false} InOrderElements(t: Tree)
    ensures multiset(InOrder(t)) == Elements(t)
  {
    if t.Node? {
      InOrderElements(t.left);
      InOrderElements(t.right);
    }
  }

  /** In the collapsed order the node's page stands after every page the rules put before it and
      before every page the rules put after it. */
  lemma OrderedInOrder(t: Tree, ruleSets: map<int, RuleSet>)
    requires t.Node? && Ordered(t, ruleSets)
    ensures |InOrder(t.left)| < |InOrder(t)| && InOrder(t)[|InOrder(t.left)|] == t.value
    ensures forall i :: 0 <= i < |InOrder(t.left)| ==>
      InOrder(t)[i] in ruleSets && t.value in ruleSets[InOrder(t)[i]].mustBeBefore
    ensures forall i :: |InOrder(t.left)| < i < |InOrder(t)| ==>
      InOrder(t)[i] in ruleSets && t.value in ruleSets[InOrder(t)[i]].mustBeAfter
  {
    var before := InOrder(t.left);
    var after := InOrder(t.right);
    var head := before + [t.value];
    assert InOrder(t) == head + after;
    InOrderMembers(t.left);
    InOrderMembers(t.right);
    AppendIndex(head, after);
    AppendIndex(before, [t.value]);
  }

  lemma AppendIndex(head: seq<int>, tail: seq<int>)
    ensures forall i :: 0 <= i < |head| ==> (head + tail)[i] == head[i]
    ensures forall i :: |head| <= i < |head + tail| ==> (head + tail)[i] == tail[i - |head|]
  {
  }

  lemma InOrderMembers(t: Tree)
    ensures forall i :: 0 <= i < |InOrder(t)| ==> InOrder(t)[i] in Members(t)
  {
    InOrderElements(t);
    ElementsMembers(t);
    forall i | 0 <= i < |InOrder(t)| ensures InOrder(t)[i] in Members(t) {
      assert InOrder(t)[i] in multiset(InOrder(t));
    }
  }

  /** The re-ordered update: the tree built from it, collapsed. */
  function Sorted(ruleSets: map<int, RuleSet>, update: seq<int>): (pages: seq<int>)
    requires HasRuleSets(ruleSets, update)
    ensures multiset(pages) <= multiset(update)
    ensures |pages| <= |update|
    ensures update != [] ==> |pages| >= 1 && update[0] in pages
  {
    var t := Build(ruleSets, update);
    var pages := InOrder(t);
    InOrderElements(t);
    BuildElements(ruleSets, update);
    assert |multiset(pages)| <= |multiset(update)| by {
      SubMultisetSize(multiset(pages), multiset(update));
    }
    assert update != [] ==> update[0] in multiset(pages) by {
      if update != [] {
        assert Elements(t) == Elements(t.left) + multiset{update[0]} + Elements(t.right);
      }
    }
    pages
  }

  lemma SubMultisetSize(a: multiset<int>, b: multiset<int>)
    requires a <= b
    ensures |a| <= |b|
  {
    assert b == a + (b - a);
  }

  /** `SortSequence(updateSequence)` */
  method SortSequence(ruleSets: map<int, RuleSet>, updateSequence: seq<int>) returns (rankedResult: seq<int>)
    requires HasRuleSets(ruleSets, updateSequence)
    ensures rankedResult == Sorted(ruleSets, updateSequence)
  {
    var topNode := GetDependencyTree(ruleSets, updateSequence);
    rankedResult := InOrder(topNode);
  }

  // ---------------------------------------------------------------- solving

  /** `GetMiddlePart(updateSequence)`: the page at index `Length / 2`, the middle one for an odd
      length and the later of the two middle ones for an even length. */
  function GetMiddlePart(updateSequence: seq<int>): (middle: int)
    requires |updateSequence| >= 1
    ensures middle in updateSequence
    ensures |updateSequence| % 2 == 1 ==>
      middle == updateSequence[|updateSequence| / 2] &&
      |updateSequence[..|updateSequence| / 2]| == |updateSequence[|updateSequence| / 2 + 1..]|
  {
    updateSequence[|updateSequence| / 2]
  }

  /** What one update adds to the sum: in part one its middle page if it is valid, in part two the
      middle page of its re-ordering if it is not, and nothing for any other variant. */
  function Contribution(ruleSets: map<int, RuleSet>, update: seq<int>, variant: Option<SolutionVariant>): (c: int)
    requires |update| >= 1
    requires variant == Some(PartTwo) && !ValidUpdate(ruleSets, update) ==> HasRuleSets(ruleSets, update)
    ensures c == 0 || c in update
  {
    if variant == Some(PartOne) then (if ValidUpdate(ruleSets, update) then GetMiddlePart(update) else 0)
    else if variant == Some(PartTwo) then
      (if ValidUpdate(ruleSets, update) then 0
       else
         var pages := Sorted(ruleSets, update);
         assert GetMiddlePart(pages) in multiset(update);
         GetMiddlePart(pages))
    else 0
  }

  /** Every update is non-empty, and for part two every invalid one can be re-ordered. */
  predicate Solvable(ruleSets: map<int, RuleSet>, updates: seq<seq<int>>, variant: Option<SolutionVariant>)
  {
    forall k :: 0 <= k < |updates| ==>
      |updates[k]| >= 1 &&
      (variant == Some(PartTwo) && !ValidUpdate(ruleSets, updates[k]) ==> HasRuleSets(ruleSets, updates[k]))
  }

  function MiddleSum(ruleSets: map<int, RuleSet>, updates: seq<seq<int>>, variant: Option<SolutionVariant>): (sum: int)
    requires Solvable(ruleSets, updates, variant)
    ensures (forall k, j :: 0 <= k < |updates| && 0 <= j < |updates[k]| ==> updates[k][j] >= 0) ==> sum >= 0
  {
    if updates == [] then 0
    else
      var n := |updates| - 1;
      assert Solvable(ruleSets, updates[..n], variant) by {
        assert forall k :: 0 <= k < n ==> updates[..n][k] == updates[k];
      }
      MiddleSum(ruleSets, updates[..n], variant) + Contribution(ruleSets, updates[n], variant)
  }

  lemma MiddleSumStep(ruleSets: map<int, RuleSet>, updates: seq<seq<int>>, n: nat, variant: Option<SolutionVariant>)
    requires n < |updates| && Solvable(ruleSets, updates, variant)
    ensures Solvable(ruleSets, updates[..n], variant) && Solvable(ruleSets, updates[..n + 1], variant)
    ensures MiddleSum(ruleSets, updates[..n + 1], variant) ==
      MiddleSum(ruleSets, updates[..n], variant) + Contribution(ruleSets, updates[n], variant)
  {
    assert updates[..n + 1][..n] == updates[..n];
    assert updates[..n + 1][n] == updates[n];
  }

  /** A variant other than the two parts adds nothing. */
  lemma {:induction false} OtherVariantSumsToZero(ruleSets: map<int, RuleSet>, updates: seq<seq<int>>)
    requires Solvable(ruleSets, updates, None)
    ensures MiddleSum(ruleSets, updates, None) == 0
  {
    if updates != [] {
      OtherVariantSumsToZero(ruleSets, updates[..|updates| - 1]);
    }
  }

  /** The two parts share the updates out: each update adds to part one's sum or to part two's,
      never to both. */
  lemma PartsAreDisjoint(ruleSets: map<int, RuleSet>, update: seq<int>)
    requires |update| >= 1 && HasRuleSets(ruleSets, update)
    ensures Contribution(ruleSets, update, Some(PartOne)) == 0 || Contribution(ruleSets, update, Some(PartTwo)) == 0
  {
  }

  // ---------------------------------------------------------------- parsing

  /** A rule line `a|b` read as the pair (a, b), or why it is rejected; `lineCounter` is its
      1-based line number. */
  function RuleLine(line: string, lineCounter: nat): (r: Result<(int, int)>)
    ensures r.Ok? ==> '|' in line && InInt32(r.value.0) && InInt32(r.value.1)
  {
    if '|' !in line then FailWith("Invalid rule '" + line + "' on line " + IntToString(lineCounter), None)
    else
      var ruleParts := Split(line, '|');
      if |ruleParts| != 2 then FailWith("Invalid rule '" + line + "' on line " + IntToString(lineCounter), None)
      else if ParseInt(ruleParts[0]).None? then
        FailWith("Failed to parse left number for rule '" + line + "' on line " + IntToString(lineCounter), None)
      else if ParseInt(ruleParts[1]).None? then
        FailWith("Failed to parse right number for rule '" + line + "' on line " + IntToString(lineCounter), None)
      else Ok((ParseInt(ruleParts[0]).value, ParseInt(ruleParts[1]).value))
  }

  /** A rule written as the puzzle input writes it reads back as that rule. */
  lemma RuleLineRoundTrip(a: int, b: int, lineCounter: nat)
    requires InInt32(a) && InInt32(b)
    ensures RuleLine(IntToString(a) + "|" + IntToString(b), lineCounter) == Ok((a, b))
  {
    var line := IntToString(a) + "|" + IntToString(b);
    assert JoinInts([a, b], '|') == line by {
      assert [a, b][1..] == [b];
    }
    SplitJoinedInts([a, b], '|');
    ParseIntToString(a);
    ParseIntToString(b);
    assert line[|IntToString(a)|] == '|';
  }

  /** An update line: its comma-separated pages, or the first piece that is not a number. */
  function UpdateLine(line: string, lineCounter: nat): (r: Result<seq<int>>)
    ensures r.Ok? ==> |r.value| == |Split(line, ',')|
  {
    var updateParts := Split(line, ',');
    match ParseInts(updateParts)
    case AllParsed(values) => Ok(values)
    case BadToken(k) =>
      FailWith("Failed to parse update '" + updateParts[k] + "' on line " + IntToString(lineCounter), None)
  }

  lemma UpdateLineRoundTrip(pages: seq<int>, lineCounter: nat)
    requires |pages| >= 1 && forall k :: 0 <= k < |pages| ==> InInt32(pages[k])
    ensures UpdateLine(JoinInts(pages, ','), lineCounter) == Ok(pages)
  {
    ParseJoinedInts(pages, ',');
  }

  lemma UpdateLineNonEmpty(line: string, lineCounter: nat)
    ensures UpdateLine(line, lineCounter).Ok? ==> |UpdateLine(line, lineCounter).value| >= 1
  {
  }

  /** What reading the input leaves: the outcome, the rule sets and the update sequences. */
  datatype Parsed = Parsed(outcome: Result<bool>, ruleSets: map<int, RuleSet>, updateSequences: seq<seq<int>>)

  /** Reading from line `i` on while still among the rules. Rule line `i` is line number `i + 1`. */
  function ReadRules(lines: seq<string>, i: nat, ruleSets: map<int, RuleSet>, updates: seq<seq<int>>): (p: Parsed)
    ensures updates <= p.updateSequences
    ensures p.outcome.Ok? ==> p.outcome.value
    decreases |lines| + 2 - i, 1
  {
    var line := ReadLine(lines, i);
    if IsNullOrWhiteSpace(line) then ReadUpdates(lines, i + 1, ruleSets, updates)
    else
      match RuleLine(line.value, i + 1)
      case Fail(f) => Parsed(Fail(f), ruleSets, updates)
      case Ok((left, right)) => ReadRules(lines, i + 1, AddRule(ruleSets, left, right), updates)
  }

  /** Reading from line `i` on among the updates. The blank line is not counted, so update line
      `i` is line number `i`. */
  function ReadUpdates(lines: seq<string>, i: nat, ruleSets: map<int, RuleSet>, updates: seq<seq<int>>): (p: Parsed)
    ensures updates <= p.updateSequences && p.ruleSets == ruleSets
    ensures p.outcome.Ok? ==> p.outcome.value
    decreases |lines| + 2 - i, 0
  {
    var line := ReadLine(lines, i);
    if IsNullOrWhiteSpace(line) then Parsed(Ok(true), ruleSets, updates)
    else
      match UpdateLine(line.value, i)
      case Fail(f) => Parsed(Fail(f), ruleSets, updates)
      case Ok(update) => ReadUpdates(lines, i + 1, ruleSets, updates + [update])
  }

  /** The rule sets after adding the rules on `lines[i..j]` in order, line `k` being line number
      `k + 1`, up to the first line that is not a rule. */
  function AddRuleLines(ruleSets: map<int, RuleSet>, lines: seq<string>, i: nat, j: nat): map<int, RuleSet>
    requires i <= j <= |lines|
    decreases j - i
  {
    if i == j then ruleSets
    else
      match RuleLine(lines[i], i + 1)
      case Fail(_) => ruleSets
      case Ok((left, right)) => AddRuleLines(AddRule(ruleSets, left, right), lines, i + 1, j)
  }

  /** The first blank line: reading rules stops there and goes on with the updates after it. */
  lemma RuleBlockEnds(lines: seq<string>, i: nat, ruleSets: map<int, RuleSet>, updates: seq<seq<int>>)
    requires i <= |lines| && UntilBlank(lines[i..]) == 0
    ensures ReadRules(lines, i, ruleSets, updates) == ReadUpdates(lines, i + 1, ruleSets, updates)
  {
    assert i < |lines| ==> lines[i..][0] == lines[i];
  }

  /** One rule line before the first blank line `j`: it is added, and reading goes on at the next. */
  lemma RuleLineStep(lines: seq<string>, i: nat, j: nat, ruleSets: map<int, RuleSet>, updates: seq<seq<int>>)
    requires i <= |lines| && i < j == i + UntilBlank(lines[i..]) && RuleLine(lines[i], i + 1).Ok?
    ensures j == i + 1 + UntilBlank(lines[i + 1..])
    ensures var added := AddRule(ruleSets, RuleLine(lines[i], i + 1).value.0, RuleLine(lines[i], i + 1).value.1);
      AddRuleLines(ruleSets, lines, i, j) == AddRuleLines(added, lines, i + 1, j) &&
      ReadRules(lines, i, ruleSets, updates) == ReadRules(lines, i + 1, added, updates)
  {
    assert lines[i..][0] == lines[i] && lines[i..][1..] == lines[i + 1..];
    assert ReadLine(lines, i) == Some(lines[i]);
  }

  /** The rule block ends at line `j`, the first line that is missing or white space only (Unicode
      white space, as `string.IsNullOrWhiteSpace` tests it): when every line before it is a rule,
      the rules are added in order and the updates are read from the line after it. */
  lemma {:induction false} RulesEndAtFirstBlank(lines: seq<string>, i: nat, j: nat, ruleSets: map<int, RuleSet>,
                                                updates: seq<seq<int>>)
    requires i <= |lines| && j == i + UntilBlank(lines[i..])
    requires forall k :: i <= k < j ==> RuleLine(lines[k], k + 1).Ok?
    ensures ReadRules(lines, i, ruleSets, updates) == ReadUpdates(lines, j + 1, AddRuleLines(ruleSets, lines, i, j), updates)
    decreases j - i
  {
    if i == j {
      RuleBlockEnds(lines, i, ruleSets, updates);
    } else {
      var rule := RuleLine(lines[i], i + 1);
      RuleLineStep(lines, i, j, ruleSets, updates);
      RulesEndAtFirstBlank(lines, i + 1, j, AddRule(ruleSets, rule.value.0, rule.value.1), updates);
    }
  }

  /** A line holding only U+3000 IDEOGRAPHIC SPACE ends the rules, and a second one the updates. */
  lemma IdeographicSpaceEndsBlocks(ruleSets: map<int, RuleSet>, updates: seq<seq<int>>)
    ensures ReadRules(["\U{3000}", "\U{3000}"], 0, ruleSets, updates) == Parsed(Ok(true), ruleSets, updates)
  {
  }

  predicate NonEmptyUpdates(updates: seq<seq<int>>)
  {
    forall k :: 0 <= k < |updates| ==> |updates[k]| >= 1
  }

  /** Reading never adds an empty update. */
  lemma {:induction false} ReadUpdatesNonEmpty(lines: seq<string>, i: nat, ruleSets: map<int, RuleSet>, updates: seq<seq<int>>)
    requires NonEmptyUpdates(updates)
    ensures NonEmptyUpdates(ReadUpdates(lines, i, ruleSets, updates).updateSequences)
    decreases |lines| + 2 - i
  {
    var line := ReadLine(lines, i);
    if !IsNullOrWhiteSpace(line) {
      var parsed := UpdateLine(line.value, i);
      UpdateLineNonEmpty(line.value, i);
      if parsed.Ok? {
        ReadUpdatesNonEmpty(lines, i + 1, ruleSets, updates + [parsed.value]);
      }
    }
  }

  lemma {:induction false} ReadRulesNonEmpty(lines: seq<string>, i: nat, ruleSets: map<int, RuleSet>, updates: seq<seq<int>>)
    requires NonEmptyUpdates(updates)
    ensures NonEmptyUpdates(ReadRules(lines, i, ruleSets, updates).updateSequences)
    decreases |lines| + 2 - i
  {
    var line := ReadLine(lines, i);
    if IsNullOrWhiteSpace(line) {
      ReadUpdatesNonEmpty(lines, i + 1, ruleSets, updates);
    } else {
      var rule := RuleLine(line.value, i + 1);
      if rule.Ok? {
        ReadRulesNonEmpty(lines, i + 1, AddRule(ruleSets, rule.value.0, rule.value.1), updates);
      }
    }
  }

  /** Reading only ever appends update sequences. */
  lemma {:induction false} ReadUpdatesAppends(lines: seq<string>, i: nat, ruleSets: map<int, RuleSet>, updates: seq<seq<int>>)
    ensures updates <= ReadUpdates(lines, i, ruleSets, updates).updateSequences
    ensures ReadUpdates(lines, i, ruleSets, updates).ruleSets == ruleSets
    decreases |lines| + 2 - i
  {
    var line := ReadLine(lines, i);
    if !IsNullOrWhiteSpace(line) {
      var parsed := UpdateLine(line.value, i);
      if parsed.Ok? {
        ReadUpdatesAppends(lines, i + 1, ruleSets, updates + [parsed.value]);
      }
    }
  }

  // ---------------------------------------------------------------- the solver object

  /** The solver's state: the rule sets by page and the update sequences read so far. */
  class Solver {
    var ruleSets: map<int, RuleSet>
    var updateSequences: seq<seq<int>>

    ghost predicate Valid()
      reads this
    {
      NonEmptyUpdates(updateSequences)
    }

    constructor()
      ensures Valid() && ruleSets == map[] && updateSequences == []
    {
      ruleSets := map[];
      updateSequences := [];
    }

    /** `ParseInput()`: the rule lines up to the first blank one, then the update lines up to the
        next; the first malformed line stops the reading, leaving what was read before it. */
    method ParseInput(lines: seq<string>) returns (r: Result<bool>)
      requires Valid()
      modifies this
      ensures Valid()
      ensures Parsed(r, ruleSets, updateSequences) == ReadRules(lines, 0, old(ruleSets), old(updateSequences))
    {
      ghost var total := ReadRules(lines, 0, ruleSets, updateSequences);
      ReadRulesNonEmpty(lines, 0, ruleSets, updateSequences);
      var lineCounter := 0;
      var line := ReadLine(lines, 0);
      while !IsNullOrWhiteSpace(line)
        invariant lineCounter <= |lines| && line == ReadLine(lines, lineCounter)
        invariant ReadRules(lines, lineCounter, ruleSets, updateSequences) == total
        invariant Valid()
        decreases |lines| - lineCounter
      {
        lineCounter := lineCounter + 1;
        var rule := ParseRuleLine(line.value, lineCounter);
        if rule.Fail? {
          return Fail(rule.failure);
        }
        AddRuleSets(rule.value.0, rule.value.1);
        line := ReadLine(lines, lineCounter);
      }
      var lineIndex := lineCounter + 1;
      line := ReadLine(lines, lineIndex);
      while !IsNullOrWhiteSpace(line)
        invariant lineIndex <= |lines| + 1 && line == ReadLine(lines, lineIndex)
        invariant ReadUpdates(lines, lineIndex, ruleSets, updateSequences) == total
        invariant Valid()
        decreases |lines| + 1 - lineIndex
      {
        var updateSequence := ParseUpdateLine(line.value, lineIndex);
        if updateSequence.Fail? {
          return Fail(updateSequence.failure);
        }
        UpdateLineNonEmpty(line.value, lineIndex);
        updateSequences := updateSequences + [updateSequence.value];
        lineIndex := lineIndex + 1;
        line := ReadLine(lines, lineIndex);
      }
      return Ok(true);
    }

    /** The body of the rule loop once both numbers are read: the rule sets are created when
        missing and the two lists extended in place. */
    method AddRuleSets(leftNumber: int, rightNumber: int)
      modifies this
      ensures ruleSets == AddRule(old(ruleSets), leftNumber, rightNumber)
      ensures updateSequences == old(updateSequences)
    {
      if leftNumber !in ruleSets {
        ruleSets := ruleSets[leftNumber := RuleSet(leftNumber, [], [])];
      }
      if rightNumber !in ruleSets {
        ruleSets := ruleSets[rightNumber := RuleSet(rightNumber, [], [])];
      }
      var leftRuleSet := ruleSets[leftNumber];
      ruleSets := ruleSets[leftNumber := leftRuleSet.(mustBeBefore := leftRuleSet.mustBeBefore + [rightNumber])];
      var rightRuleSet := ruleSets[rightNumber];
      ruleSets := ruleSets[rightNumber := rightRuleSet.(mustBeAfter := rightRuleSet.mustBeAfter + [leftNumber])];
    }

    /** `TestUpdateSequence(updateSequence)`: each page that has a rule set must obey it. */
    method TestUpdateSequence(updateSequence: seq<int>) returns (isValid: bool)
      ensures isValid == ValidUpdate(ruleSets, updateSequence)
    {
      for i := 0 to |updateSequence|
        invariant forall k :: 0 <= k < i && updateSequence[k] in ruleSets ==>
          ObeysRuleSet(k, updateSequence, ruleSets[updateSequence[k]])
      {
        var updatePart := updateSequence[i];
        if updatePart !in ruleSets {
          continue;
        }
        var obeysRuleSet := TestRuleSet(i, updateSequence, ruleSets[updatePart]);
        if !obeysRuleSet {
          return false;
        }
      }
      return true;
    }

    /** `Solve(variant)`: reads the input, then adds up the middle pages the variant asks for. */
    method Solve(lines: seq<string>, variant: Option<SolutionVariant>) returns (r: Result<string>)
      requires Valid()
      requires var p := ReadRules(lines, 0, ruleSets, updateSequences);
        p.outcome.Ok? ==> Solvable(p.ruleSets, p.updateSequences, variant)
      modifies this
      ensures var p := ReadRules(lines, 0, old(ruleSets), old(updateSequences));
        ruleSets == p.ruleSets && updateSequences == p.updateSequences &&
        r == if p.outcome.Fail? then FailWith("Failed to parse input", Some(p.outcome.failure))
             else Ok(IntToString(MiddleSum(ruleSets, updateSequences, variant)))
    {
      var parseResult := ParseInput(lines);
      if parseResult.Fail? {
        return FailWith("Failed to parse input", Some(parseResult.failure));
      }
      var middleSum := SumMiddleParts(variant);
      r := Ok(IntToString(middleSum));
    }

    /** The loop of `Solve` over the update sequences. */
    method SumMiddleParts(variant: Option<SolutionVariant>) returns (middleSum: int)
      requires Solvable(ruleSets, updateSequences, variant)
      ensures middleSum == MiddleSum(ruleSets, updateSequences, variant)
    {
      middleSum := 0;
      for i := 0 to |updateSequences|
        invariant Solvable(ruleSets, updateSequences[..i], variant)
        invariant middleSum == MiddleSum(ruleSets, updateSequences[..i], variant)
      {
        MiddleSumStep(ruleSets, updateSequences, i, variant);
        ghost var contribution := Contribution(ruleSets, updateSequences[i], variant);
        var updateSequence := updateSequences[i];
        var isValid := TestUpdateSequence(updateSequence);
        if variant == Some(PartOne) {
          if !isValid {
            assert contribution == 0;
            continue;
          }
          assert contribution == GetMiddlePart(updateSequence);
        } else if variant == Some(PartTwo) {
          if isValid {
            assert contribution == 0;
            continue;
          }
          updateSequence := SortSequence(ruleSets, updateSequence);
          assert contribution == GetMiddlePart(updateSequence);
        } else {
          assert contribution == 0;
          continue;
        }
        var middlePart := GetMiddlePart(updateSequence);
        middleSum := middleSum + middlePart;
      }
      assert updateSequences[..|updateSequences|] == updateSequences;
    }
  }

  /** The checks of a rule line in the rule loop, in the order the loop makes them. */
  method ParseRuleLine(ruleLine: string, lineCounter: nat) returns (r: Result<(int, int)>)
    ensures r == RuleLine(ruleLine, lineCounter)
  {
    if '|' !in ruleLine {
      return FailWith("Invalid rule '" + ruleLine + "' on line " + IntToString(lineCounter), None);
    }
    var ruleParts := Split(ruleLine, '|');
    if |ruleParts| != 2 {
      return FailWith("Invalid rule '" + ruleLine + "' on line " + IntToString(lineCounter), None);
    }
    var leftNumber := ParseInt(ruleParts[0]);
    if leftNumber.None? {
      return FailWith("Failed to parse left number for rule '" + ruleLine + "' on line " + IntToString(lineCounter), None);
    }
    var rightNumber := ParseInt(ruleParts[1]);
    if rightNumber.None? {
      return FailWith("Failed to parse right number for rule '" + ruleLine + "' on line " + IntToString(lineCounter), None);
    }
    return Ok((leftNumber.value, rightNumber.value));
  }

  /** The inner loop over an update line's comma-separated pieces. */
  method ParseUpdateLine(line: string, lineCounter: nat) returns (r: Result<seq<int>>)
    ensures r == UpdateLine(line, lineCounter)
  {
    var updateParts := Split(line, ',');
    var updateSequence: seq<int> := [];
    for i := 0 to |updateParts|
      invariant FirstFailure(ParseEach(updateParts)[..i]) == AllParsed(updateSequence)
    {
      FirstFailureStep(ParseEach(updateParts), i);
      var updatePartNumber := ParseInt(updateParts[i]);
      if updatePartNumber.None? {
        FirstFailureStays(ParseEach(updateParts), i + 1);
        return FailWith("Failed to parse update '" + updateParts[i] + "' on line " + IntToString(lineCounter), None);
      }
      updateSequence := updateSequence + [updatePartNumber.value];
    }
    assert ParseEach(updateParts)[..|updateParts|] == ParseEach(updateParts);
    return Ok(updateSequence);
  }
}
