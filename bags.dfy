/**
 * Day 7 (07/main.rs): bag rules of the form "a bright white bag contains
 * 1 shiny gold bag, ...". A rule is a bag name and a list of (count, name)
 * contents. `sum_bags` counts a bag and everything nested in it, taking the
 * first rule with the bag's name; `part2` leaves out the shiny gold bag
 * itself; `part1` counts the rules whose bag reaches "shiny gold" along
 * contain-edges.
 *
 * `sum_bags` follows the rules without remembering where it has been, so on
 * rules that nest a bag in itself it never returns. The model bounds the
 * nesting depth by a `fuel` argument and answers None when it runs out;
 * `SumBagsTerminates` shows that rules ranked so that contents always sit
 * lower have enough fuel, and `SumBagsFuelIrrelevant` that more fuel never
 * changes an answer.
 */
module Bags {
  import opened Wrappers

  type Contents = seq<(nat, string)>
  type Rules = seq<(string, Contents)>

  const Gold: string := "shiny gold"

  /** The index of the first rule at or after `k` whose bag is `bag`, if any. */
  function FirstRuleFrom(bag: string, rules: Rules, k: nat): Option<nat>
    requires k <= |rules|
    decreases |rules| - k
  {
    if k == |rules| then None
    else if rules[k].0 == bag then Some(k)
    else FirstRuleFrom(bag, rules, k + 1)
  }

  /** The search from `k` finds the first rule for `bag` at or after `k`, and None only when there is none. */
  lemma {:induction false} FirstRuleFromFinds(bag: string, rules: Rules, k: nat)
    requires k <= |rules|
    ensures FirstRuleFrom(bag, rules, k).None? <==> forall i :: k <= i < |rules| ==> rules[i].0 != bag
    ensures FirstRuleFrom(bag, rules, k).Some? ==>
              var i := FirstRuleFrom(bag, rules, k).value;
              k <= i < |rules| && rules[i].0 == bag && forall j :: k <= j < i ==> rules[j].0 != bag
    decreases |rules| - k
  {
    if k < |rules| && rules[k].0 != bag {
      FirstRuleFromFinds(bag, rules, k + 1);
    }
  }

  /** The loop of `sum_bags` over the rules: the first rule for `bag` wins, later ones are never looked at. */
  function FirstRule(bag: string, rules: Rules): (r: Option<nat>)
    ensures r.None? <==> forall i :: 0 <= i < |rules| ==> rules[i].0 != bag
    ensures r.Some? ==> r.value < |rules| && rules[r.value].0 == bag
    ensures r.Some? ==> forall j :: 0 <= j < r.value ==> rules[j].0 != bag
  {
    FirstRuleFromFinds(bag, rules, 0);
    FirstRuleFrom(bag, rules, 0)
  }

  /**
   * `sum_bags(bag, rules)`: 0 when no rule names `bag`, otherwise 1 for the
   * bag itself plus each count times the total of the bag it counts. None when
   * the nesting goes deeper than `fuel` rules.
   */
  function SumBags(bag: string, rules: Rules, fuel: nat): (r: Option<nat>)
    ensures FirstRule(bag, rules).None? ==> r == Some(0)
    ensures FirstRule(bag, rules).Some? && r.Some? ==> r.value >= 1
    decreases fuel, 0
  {
    match FirstRule(bag, rules)
    case None => Some(0)
    case Some(i) =>
      if fuel == 0 then None
      else
        match SumContents(rules[i].1, rules, fuel - 1)
        case None => None
        case Some(t) => Some(1 + t)
  }

  /** The `tot += c * sum_bags(n, rules)` loop over one rule's contents, without the 1 for the bag itself. */
  function SumContents(cs: Contents, rules: Rules, fuel: nat): (r: Option<nat>)
    ensures cs == [] ==> r == Some(0)
    decreases fuel, 1, |cs|
  {
    if cs == [] then Some(0)
    else
      match SumBags(cs[0].1, rules, fuel)
      case None => None
      case Some(n) =>
        match SumContents(cs[1..], rules, fuel)
        case None => None
        case Some(t) => Some(cs[0].0 * n + t)
  }

  /** `part2`: the bags inside a shiny gold bag, which is one less than `sum_bags` counts. */
  function Part2(rules: Rules, fuel: nat): (r: Option<int>)
    ensures r.Some? <==> SumBags(Gold, rules, fuel).Some?
    ensures r.Some? && FirstRule(Gold, rules).None? ==> r.value == -1
    ensures r.Some? && FirstRule(Gold, rules).Some? ==> r.value >= 0
  {
    match SumBags(Gold, rules, fuel)
    case None => None
    case Some(n) => Some(n - 1)
  }

  /** The rule at `i` is the first for its bag when no rule before it has that name. */
  lemma FirstRuleAt(bag: string, rules: Rules, i: nat)
    requires i < |rules| && rules[i].0 == bag
    requires forall j :: 0 <= j < i ==> rules[j].0 != bag
    ensures FirstRule(bag, rules) == Some(i)
  {
  }

  /** A bag whose first rule holds one kind of bag counts itself plus that many of the inner total. */
  lemma SumBagsSingle(bag: string, rules: Rules, i: nat, fuel: nat, v: nat)
    requires FirstRule(bag, rules) == Some(i) && |rules[i].1| == 1
    requires SumBags(rules[i].1[0].1, rules, fuel) == Some(v)
    ensures SumBags(bag, rules, fuel + 1) == Some(1 + rules[i].1[0].0 * v)
  {
    assert rules[i].1[1..] == [];
  }

  /** A bag whose first rule holds two kinds of bag counts itself plus both weighted inner totals. */
  lemma SumBagsPair(bag: string, rules: Rules, i: nat, fuel: nat, v: nat, w: nat)
    requires FirstRule(bag, rules) == Some(i) && |rules[i].1| == 2
    requires SumBags(rules[i].1[0].1, rules, fuel) == Some(v) && SumBags(rules[i].1[1].1, rules, fuel) == Some(w)
    ensures SumBags(bag, rules, fuel + 1) == Some(1 + rules[i].1[0].0 * v + rules[i].1[1].0 * w)
  {
    var cs := rules[i].1;
    assert cs[1..][1..] == [];
    assert SumContents(cs[1..], rules, fuel) == Some(cs[1].0 * w);
  }

  /** The first example of the tests, as the rule parser reads it (the first bag is literally named "light; red"). */
  function MixedRules(): Rules {
    [
    ("light; red", [(1, "bright white"), (2, "muted yellow")]),
    ("dark orange", [(3, "bright white"), (4, "muted yellow")]),
    ("bright white", [(1, Gold)]),
    ("muted yellow", [(2, Gold), (9, "faded blue")]),
    (Gold, [(1, "dark olive"), (2, "vibrant plum")]),
    ("dark olive", [(3, "faded blue"), (4, "dotted black")]),
    ("vibrant plum", [(5, "faded blue"), (6, "dotted black")]),
    ("faded blue", []),
    ("dotted black", [])
    ]
  }

  /** The second example: each bag from shiny gold down holds two of the next. */
  function ChainRules(): Rules {
    [
    (Gold, [(2, "dark red")]),
    ("dark red", [(2, "dark orange")]),
    ("dark orange", [(2, "dark yellow")]),
    ("dark yellow", [(2, "dark green")]),
    ("dark green", [(2, "dark blue")]),
    ("dark blue", [(2, "dark violet")]),
    ("dark violet", [])
    ]
  }

  /** The first example's rules for the bags that hold nothing. */
  lemma MixedLeafRules()
    ensures FirstRule("faded blue", MixedRules()) == Some(7)
    ensures FirstRule("dotted black", MixedRules()) == Some(8)
  {
  }

  /** The first example's rules for the bags inside shiny gold. */
  lemma MixedInnerRules()
    ensures FirstRule("dark olive", MixedRules()) == Some(5)
    ensures FirstRule("vibrant plum", MixedRules()) == Some(6)
  {
  }

  /** A shiny gold bag of the first example holds 32 bags. */
  lemma MixedPart2()
    ensures Part2(MixedRules(), 3) == Some(32)
  {
    var r := MixedRules();
    MixedLeafRules();
    MixedInnerRules();
    assert FirstRule(Gold, r) == Some(4);
    assert SumBags("faded blue", r, 1) == Some(1);
    assert SumBags("dotted black", r, 1) == Some(1);
    SumBagsPair("dark olive", r, 5, 1, 1, 1);
    SumBagsPair("vibrant plum", r, 6, 1, 1, 1);
    SumBagsPair(Gold, r, 4, 2, 8, 12);
  }

  /** The second example's rules for the two innermost bags. */
  lemma ChainLowerRules()
    ensures FirstRule("dark violet", ChainRules()) == Some(6)
    ensures FirstRule("dark blue", ChainRules()) == Some(5)
  {
  }

  /** The second example's rules for the bags in the middle of the chain. */
  lemma ChainMiddleRules()
    ensures FirstRule("dark green", ChainRules()) == Some(4)
    ensures FirstRule("dark yellow", ChainRules()) == Some(3)
  {
  }

  /** The second example's rules for the outermost bags. */
  lemma ChainUpperRules()
    ensures FirstRule("dark orange", ChainRules()) == Some(2)
    ensures FirstRule("dark red", ChainRules()) == Some(1)
    ensures FirstRule(Gold, ChainRules()) == Some(0)
  {
  }

  /** A shiny gold bag of the second example holds 2 + 4 + ... + 64 = 126 bags. */
  lemma ChainPart2()
    ensures Part2(ChainRules(), 7) == Some(126)
  {
    var r := ChainRules();
    ChainLowerRules();
    ChainMiddleRules();
    ChainUpperRules();
    assert SumBags("dark violet", r, 1) == Some(1);
    SumBagsSingle("dark blue", r, 5, 1, 1);
    SumBagsSingle("dark green", r, 4, 2, 3);
    SumBagsSingle("dark yellow", r, 3, 3, 7);
    SumBagsSingle("dark orange", r, 2, 4, 15);
    SumBagsSingle("dark red", r, 1, 5, 31);
    SumBagsSingle(Gold, r, 0, 6, 63);
  }

  /** A rank that drops from every rule's bag to each bag it contains. */
  ghost predicate Ranked(rules: Rules, rank: string -> nat) {
    forall i, j :: 0 <= i < |rules| && 0 <= j < |rules[i].1| ==> rank(rules[i].1[j].1) < rank(rules[i].0)
  }

  /** On ranked rules, fuel one above a bag's rank is enough for `sum_bags` to return. */
  lemma {:induction false} SumBagsTerminates(bag: string, rules: Rules, rank: string -> nat, fuel: nat)
    requires Ranked(rules, rank) && fuel > rank(bag)
    ensures SumBags(bag, rules, fuel).Some?
    decreases fuel, 0
  {
    match FirstRule(bag, rules)
    case None =>
    case Some(i) =>
      SumContentsTerminates(rules[i].1, rules, rank, fuel - 1, rank(bag));
  }

  lemma {:induction false} SumContentsTerminates(cs: Contents, rules: Rules, rank: string -> nat, fuel: nat, bound: nat)
    requires Ranked(rules, rank) && fuel >= bound
    requires forall j :: 0 <= j < |cs| ==> rank(cs[j].1) < bound
    ensures SumContents(cs, rules, fuel).Some?
    decreases fuel, 1, |cs|
  {
    if cs != [] {
      SumBagsTerminates(cs[0].1, rules, rank, fuel);
      SumContentsTerminates(cs[1..], rules, rank, fuel, bound);
    }
  }

  /** An answer found with some fuel stays the answer with more fuel. */
  lemma {:induction false} SumBagsFuelIrrelevant(bag: string, rules: Rules, fuel: nat, more: nat)
    requires SumBags(bag, rules, fuel).Some? && fuel <= more
    ensures SumBags(bag, rules, more) == SumBags(bag, rules, fuel)
    decreases fuel, 0
  {
    match FirstRule(bag, rules)
    case None =>
    case Some(i) =>
      SumContentsFuelIrrelevant(rules[i].1, rules, fuel - 1, more - 1);
  }

  lemma {:induction false} SumContentsFuelIrrelevant(cs: Contents, rules: Rules, fuel: nat, more: nat)
    requires SumContents(cs, rules, fuel).Some? && fuel <= more
    ensures SumContents(cs, rules, more) == SumContents(cs, rules, fuel)
    decreases fuel, 1, |cs|
  {
    if cs != [] {
      SumBagsFuelIrrelevant(cs[0].1, rules, fuel, more);
      SumContentsFuelIrrelevant(cs[1..], rules, fuel, more);
    }
  }

  /** A bag whose first rule lists the bag itself never gets an answer, whatever the count. */
  lemma {:induction false} SelfContainedDiverges(bag: string, rules: Rules, fuel: nat)
    requires FirstRule(bag, rules).Some?
    requires exists j :: 0 <= j < |rules[FirstRule(bag, rules).value].1| && rules[FirstRule(bag, rules).value].1[j].1 == bag
    ensures SumBags(bag, rules, fuel).None?
    decreases fuel
  {
    if fuel > 0 {
      var i := FirstRule(bag, rules).value;
      var j :| 0 <= j < |rules[i].1| && rules[i].1[j].1 == bag;
      SelfContainedDiverges(bag, rules, fuel - 1);
      ContentsNoneFrom(rules[i].1, rules, fuel - 1, j);
    }
  }

  /** A content whose bag has no answer leaves the whole sum without one. */
  lemma {:induction false} ContentsNoneFrom(cs: Contents, rules: Rules, fuel: nat, j: nat)
    requires j < |cs| && SumBags(cs[j].1, rules, fuel).None?
    ensures SumContents(cs, rules, fuel).None?
    decreases j
  {
    if j > 0 {
      ContentsNoneFrom(cs[1..], rules, fuel, j - 1);
    }
  }

  /** Every rule in `extra` names a bag that already has a rule in `rules`. */
  predicate Shadowed(rules: Rules, extra: Rules) {
    forall i :: 0 <= i < |extra| ==> FirstRule(extra[i].0, rules).Some?
  }

  /** Appending rules for bags that already have one changes no first rule. */
  lemma FirstRuleShadowed(bag: string, rules: Rules, extra: Rules)
    requires Shadowed(rules, extra)
    ensures FirstRule(bag, rules + extra) == FirstRule(bag, rules)
  {
    var r := FirstRule(bag, rules + extra);
    if FirstRule(bag, rules).Some? {
      var i := FirstRule(bag, rules).value;
      assert (rules + extra)[i].0 == bag;
      forall j | 0 <= j < i ensures (rules + extra)[j].0 != bag {
        assert (rules + extra)[j] == rules[j];
      }
    } else {
      forall k | 0 <= k < |rules + extra| ensures (rules + extra)[k].0 != bag {
        if k >= |rules| {
          assert (rules + extra)[k] == extra[k - |rules|];
        }
      }
    }
  }

  /** Later rules for a bag that already has one are ignored: appending them changes no count. */
  lemma {:induction false} SumBagsShadowed(bag: string, rules: Rules, extra: Rules, fuel: nat)
    requires Shadowed(rules, extra)
    ensures SumBags(bag, rules + extra, fuel) == SumBags(bag, rules, fuel)
    decreases fuel, 0
  {
    FirstRuleShadowed(bag, rules, extra);
    match FirstRule(bag, rules)
    case None =>
    case Some(i) =>
      if fuel > 0 {
        assert (rules + extra)[i] == rules[i];
        SumContentsShadowed(rules[i].1, rules, extra, fuel - 1);
      }
  }

  lemma {:induction false} SumContentsShadowed(cs: Contents, rules: Rules, extra: Rules, fuel: nat)
    requires Shadowed(rules, extra)
    ensures SumContents(cs, rules + extra, fuel) == SumContents(cs, rules, fuel)
    decreases fuel, 1, |cs|
  {
    if cs != [] {
      SumBagsShadowed(cs[0].1, rules, extra, fuel);
      SumContentsShadowed(cs[1..], rules, extra, fuel);
    }
  }

  // Reachability along contain-edges, for `part1`.

  /** Some rule for `a` lists `b` among its contents (every rule, not only the first: the graph gets an edge from each). */
  ghost predicate Edge(rules: Rules, a: string, b: string) {
    exists i, j :: 0 <= i < |rules| && 0 <= j < |rules[i].1| && rules[i].0 == a && rules[i].1[j].1 == b
  }

  /** A walk along contain-edges. */
  ghost predicate Path(rules: Rules, p: seq<string>) {
    |p| >= 1 && forall k :: 0 <= k < |p| - 1 ==> Edge(rules, p[k], p[k + 1])
  }

  /** There is a walk, possibly empty, from `a` to `b`. */
  ghost predicate Reaches(rules: Rules, a: string, b: string) {
    exists p :: Path(rules, p) && p[0] == a && p[|p| - 1] == b
  }

  /** Every name the rules mention. */
  function Names(rules: Rules): set<string> {
    (set i | 0 <= i < |rules| :: rules[i].0) + (set i, j | 0 <= i < |rules| && 0 <= j < |rules[i].1| :: rules[i].1[j].1)
  }

  /** The bags one contain-edge away from a bag in `s`. */
  function Successors(rules: Rules, s: set<string>): (r: set<string>)
    ensures r <= Names(rules)
  {
    set i, j | 0 <= i < |rules| && 0 <= j < |rules[i].1| && rules[i].0 in s :: rules[i].1[j].1
  }

  /** `b` is a successor of `s` exactly when some bag of `s` has an edge to it. */
  lemma SuccessorsEdge(rules: Rules, s: set<string>, b: string)
    ensures b in Successors(rules, s) <==> exists a :: a in s && Edge(rules, a, b)
  {
    if exists a :: a in s && Edge(rules, a, b) {
      var a :| a in s && Edge(rules, a, b);
      var i, j :| 0 <= i < |rules| && 0 <= j < |rules[i].1| && rules[i].0 == a && rules[i].1[j].1 == b;
      assert rules[i].0 in s;
    }
  }

  /** Growing `s` by names from `n` leaves fewer names of `n` outside it. */
  lemma FewerMissing(n: set<string>, s: set<string>, t: set<string>)
    requires s <= t && t != s && t - s <= n
    ensures |n - t| < |n - s|
  {
    assert t - s != {} by {
      assert t == s + (t - s);
    }
    var x :| x in t - s;
    var a, b := n - s, n - t;
    assert a == b + (a - b) && b * (a - b) == {};
    assert x in a - b;
  }

  /** The bags reachable from `s`: `s` grown by successors until nothing new appears. */
  function Closure(rules: Rules, s: set<string>): (r: set<string>)
    ensures s <= r
    ensures Successors(rules, r) <= r
    decreases |Names(rules) - s|
  {
    var t := s + Successors(rules, s);
    if t == s then s
    else
      FewerMissing(Names(rules), s, t);
      Closure(rules, t)
  }

  /** `has_path_connecting(graph, a, b)`: a search from `a` finds `b`; it always finds `a` itself. */
  function HasPath(rules: Rules, a: string, b: string): (r: bool)
    ensures a == b ==> r
  {
    b in Closure(rules, {a})
  }

  /** `x` is reachable from some bag of `s0`. */
  ghost predicate ReachedFrom(rules: Rules, s0: set<string>, x: string) {
    exists a :: a in s0 && Reaches(rules, a, x)
  }

  /** A walk to `y` followed by an edge from `y` to `x` is a walk to `x`. */
  lemma ReachesStep(rules: Rules, a: string, y: string, x: string)
    requires Reaches(rules, a, y) && Edge(rules, y, x)
    ensures Reaches(rules, a, x)
  {
    var p :| Path(rules, p) && p[0] == a && p[|p| - 1] == y;
    var q := p + [x];
    assert Path(rules, q) && q[0] == a && q[|q| - 1] == x;
  }

  /** One round of successors keeps everything reachable from `s0`. */
  lemma SuccessorsReached(rules: Rules, s0: set<string>, s: set<string>)
    requires forall x :: x in s ==> ReachedFrom(rules, s0, x)
    ensures forall x :: x in s + Successors(rules, s) ==> ReachedFrom(rules, s0, x)
  {
    forall x | x in Successors(rules, s) ensures ReachedFrom(rules, s0, x) {
      SuccessorsEdge(rules, s, x);
      var y :| y in s && Edge(rules, y, x);
      var a :| a in s0 && Reaches(rules, a, y);
      ReachesStep(rules, a, y, x);
    }
  }

  /** Everything `Closure` adds is reachable from a bag in the starting set. */
  lemma {:induction false} ClosureSound(rules: Rules, s0: set<string>, s: set<string>)
    requires forall x :: x in s ==> ReachedFrom(rules, s0, x)
    ensures forall x :: x in Closure(rules, s) ==> ReachedFrom(rules, s0, x)
    decreases |Names(rules) - s|
  {
    var t := s + Successors(rules, s);
    if t != s {
      FewerMissing(Names(rules), s, t);
      SuccessorsReached(rules, s0, s);
      ClosureSound(rules, s0, t);
      assert Closure(rules, s) == Closure(rules, t);
    }
  }

  /** A set closed under successors holds the end of every walk that starts in it. */
  lemma {:induction false} ClosedHoldsPath(rules: Rules, c: set<string>, p: seq<string>)
    requires Successors(rules, c) <= c && Path(rules, p) && p[0] in c
    ensures p[|p| - 1] in c
    decreases |p|
  {
    if |p| > 1 {
      var q := p[..|p| - 1];
      assert Path(rules, q);
      ClosedHoldsPath(rules, c, q);
      assert Edge(rules, q[|q| - 1], p[|p| - 1]);
      SuccessorsEdge(rules, c, p[|p| - 1]);
    }
  }

  /** What the search finds is reachable. */
  lemma HasPathSound(rules: Rules, a: string, b: string)
    requires HasPath(rules, a, b)
    ensures Reaches(rules, a, b)
  {
    assert Reaches(rules, a, a) by {
      assert Path(rules, [a]);
    }
    ClosureSound(rules, {a}, {a});
    assert ReachedFrom(rules, {a}, b);
  }

  /** The search finds exactly the reachable bags. */
  lemma HasPathReaches(rules: Rules, a: string, b: string)
    ensures HasPath(rules, a, b) <==> Reaches(rules, a, b)
  {
    if HasPath(rules, a, b) {
      HasPathSound(rules, a, b);
    }
    if Reaches(rules, a, b) {
      var p :| Path(rules, p) && p[0] == a && p[|p| - 1] == b;
      ClosedHoldsPath(rules, Closure(rules, {a}), p);
    }
  }

  /** Rule `i` is one `part1` counts: its bag is not shiny gold and reaches it. */
  ghost predicate Counted(rules: Rules, i: int) {
    0 <= i < |rules| && rules[i].0 != Gold && Reaches(rules, rules[i].0, Gold)
  }

  /** The rules among the first `n` whose bag is not shiny gold and reaches it. */
  function CountReaching(rules: Rules, n: nat): (r: nat)
    requires n <= |rules|
    ensures r <= n
  {
    if n == 0 then 0
    else CountReaching(rules, n - 1) + if rules[n - 1].0 != Gold && HasPath(rules, rules[n - 1].0, Gold) then 1 else 0
  }

  /** The rules among the first `n` that `part1` counts. */
  ghost function CountedSet(rules: Rules, n: nat): set<int> {
    set i | 0 <= i < n && Counted(rules, i)
  }

  lemma CountedSetStep(rules: Rules, n: nat)
    requires 0 < n
    ensures CountedSet(rules, n) == CountedSet(rules, n - 1) + if Counted(rules, n - 1) then {n - 1} else {}
  {
  }

  /** `CountReaching` counts exactly the rule entries that are not shiny gold and reach it. */
  lemma {:induction false} CountReachingIsCount(rules: Rules, n: nat)
    requires n <= |rules|
    ensures CountReaching(rules, n) == |CountedSet(rules, n)|
  {
    if n > 0 {
      CountReachingIsCount(rules, n - 1);
      HasPathReaches(rules, rules[n - 1].0, Gold);
      CountedSetStep(rules, n);
      var before := CountedSet(rules, n - 1);
      var counted := rules[n - 1].0 != Gold && HasPath(rules, rules[n - 1].0, Gold);
      assert counted == Counted(rules, n - 1);
      assert CountReaching(rules, n) == CountReaching(rules, n - 1) + if counted then 1 else 0;
      if counted {
        assert n - 1 !in before;
        assert |CountedSet(rules, n)| == |before + {n - 1}| == |before| + 1;
      } else {
        assert CountedSet(rules, n) == before;
      }
    }
  }

  /** `part1`: the loop counting the rules whose bag leads to a shiny gold one. */
  method Part1(rules: Rules) returns (withPath: nat)
    ensures withPath == CountReaching(rules, |rules|)
    ensures withPath == |CountedSet(rules, |rules|)|
    ensures withPath <= |rules|
  {
    withPath := 0;
    var k := 0;
    while k < |rules|
      invariant k <= |rules| && withPath == CountReaching(rules, k)
    {
      if rules[k].0 != Gold && HasPath(rules, rules[k].0, Gold) {
        withPath := withPath + 1;
      }
      k := k + 1;
    }
    CountReachingIsCount(rules, |rules|);
  }
}
