/**
 * Turning selected spans into fused groups: chains of the inverse DAG with the greedy selector
 * (src/pipeline/compressor_inverse_dag.cpp:130-170), maximal forward chains with the planner
 * (src/pipeline/compressor.cpp:210-284). Installed groups are linear and node-disjoint.
 */
module FusedGroups {
  import opened Graph
  import opened Building
  import opened Liveness
  import opened Execution
  import opened FusionSelect

  /** The registry: does some implementation match this list of stages? */
  type StageRegistry = seq<int> -> bool

  function StagesOf(d: Dag, chain: seq<int>): seq<int> {
    seq(|chain|, k requires 0 <= k < |chain| => if 0 <= chain[k] < |d.nodes| then d.nodes[chain[k]].stage else -1)
  }

  function OnChain(d: Dag, reg: StageRegistry, chain: seq<int>): Registry {
    (begin: nat, end: nat) => begin <= end <= |chain| && reg(StagesOf(d, chain[begin..end]))
  }

  /** A linear chain with distinct nodes. */
  ghost predicate IsChain(d: Dag, chain: seq<int>) {
    && LinearGroup(d, chain)
    && (forall i, j :: 0 <= i < j < |chain| ==> chain[i] != chain[j])
  }

  function GroupsOn(chain: seq<int>, spans: seq<Span>): seq<Group> {
    if spans == [] then [] else
      [if spans[0].begin <= spans[0].end <= |chain| then chain[spans[0].begin..spans[0].end]
          else []] + GroupsOn(chain, spans[1..])
  }

  method BuildGroups(chain: seq<int>, spans: seq<Span>) returns (groups: seq<Group>)
    requires forall s :: s in spans ==> s.begin <= s.end <= |chain|
    ensures groups == GroupsOn(chain, spans)
  {
    groups := [];
    for i := 0 to |spans|
      invariant groups + GroupsOn(chain, spans[i..]) == GroupsOn(chain, spans)
    {
      assert spans[i] in spans && spans[i..][1..] == spans[i + 1..];
      groups := groups + [chain[spans[i].begin..spans[i].end]];
    }
  }

  lemma {:induction false} OrderedMember(reg: Registry, lo: nat, count: nat, spans: seq<Span>, s: Span)
    requires Ordered(reg, lo, count, spans) && s in spans
    ensures Fits(reg, lo, count, s)
    decreases |spans|
  {
    if s != spans[0] {
      OrderedMember(reg, spans[0].end, count, spans[1..], s);
    }
  }

  /** Groups cut from one chain: linear, inside the chain from position `lo` on, pairwise disjoint. */
  lemma {:induction false} GroupsOnChain(d: Dag, chain: seq<int>, reg: Registry, lo: nat, spans: seq<Span>)
    requires IsChain(d, chain) && lo <= |chain| && Ordered(reg, lo, |chain|, spans)
    ensures GroupsOK(d, GroupsOn(chain, spans))
    ensures forall x, m :: 0 <= x < |GroupsOn(chain, spans)| && m in GroupsOn(chain, spans)[x] ==> m in chain[lo..]
    ensures forall x :: 0 <= x < |GroupsOn(chain, spans)| ==> |GroupsOn(chain, spans)[x]| >= 2
    decreases |spans|
  {
    if spans != [] {
      var s, rest := spans[0], GroupsOn(chain, spans[1..]);
      GroupsOnChain(d, chain, reg, s.end, spans[1..]);
      var g := chain[s.begin..s.end];
      forall k | 0 < k < |g| ensures Linked(d, g[k - 1], g[k]) {
        var x := s.begin + k;
        assert Linked(d, chain[x - 1], chain[x]);
      }
      forall m | m in g ensures m in chain[lo..] && m !in chain[s.end..] {
        var k :| 0 <= k < |g| && g[k] == m;
        assert chain[lo..][s.begin + k - lo] == m;
      }
      forall m | m in chain[s.end..] ensures m in chain[lo..] {
        var k :| 0 <= k < |chain[s.end..]| && chain[s.end..][k] == m;
        assert chain[lo..][s.end + k - lo] == m;
      }
      JoinGroups(d, [g], rest);
      assert GroupsOn(chain, spans) == [g] + rest;
    }
  }

  lemma JoinGroups(d: Dag, a: seq<Group>, b: seq<Group>)
    requires GroupsOK(d, a) && GroupsOK(d, b)
    requires forall x, y, m :: 0 <= x < |a| && 0 <= y < |b| && m in a[x] ==> m !in b[y]
    ensures GroupsOK(d, a + b)
  {
  }

  // ---- inverse: walk each chain that starts at a dependency-free node ----

  ghost predicate Ascending(d: Dag) {
    forall i, p :: IsNode(d, i) && p in d.nodes[i].deps ==> 0 <= p < i
  }

  /** The only dependent of `i`, if `i` is its only dependency; -1 otherwise. */
  function NextOnChain(d: Dag, i: int): int
    requires 0 <= i < |d.nodes|
  {
    var n := d.nodes[i];
    if |n.dependents| == 1 && 0 <= n.dependents[0] < |d.nodes| && |d.nodes[n.dependents[0]].deps| == 1
    then n.dependents[0] else -1
  }

  /** The chain from `i` on, as far as it is linear and unclaimed. */
  function ChainFrom(d: Dag, i: int, claimed: set<int>): seq<int>
    requires 0 <= i < |d.nodes|
    decreases |d.nodes| - i
  {
    var next := NextOnChain(d, i);
    if next > i && next !in claimed then [i] + ChainFrom(d, next, claimed) else [i]
  }

  /** It is a chain, and it stops only where linearity does or at a claimed node. */
  lemma {:induction false} ChainFromIsMaximal(d: Dag, i: int, claimed: set<int>)
    requires Growing(d) && Ascending(d) && IsNode(d, i)
    ensures var chain := ChainFrom(d, i, claimed);
      && IsChain(d, chain) && chain[0] == i && (forall m :: m in chain ==> i <= m)
      && (NextOnChain(d, chain[|chain| - 1]) < 0 || NextOnChain(d, chain[|chain| - 1]) in claimed)
    ensures forall m :: m in ChainFrom(d, i, claimed) && m != i ==> m !in claimed
    decreases |d.nodes| - i
  {
    var next := NextOnChain(d, i);
    if next >= 0 {
      assert next in d.nodes[i].dependents && DependsOn(d, next, i);
      assert d.nodes[next].deps == [i] && i in d.nodes[next].deps;
      if next !in claimed {
        ChainFromIsMaximal(d, next, claimed);
        PrependToChain(d, i, ChainFrom(d, next, claimed));
      }
    }
  }

  lemma PrependToChain(d: Dag, i: int, chain: seq<int>)
    requires IsNode(d, i) && IsChain(d, chain) && Linked(d, i, chain[0]) && forall m :: m in chain ==> i < m
    ensures IsChain(d, [i] + chain)
  {
    var c := [i] + chain;
    forall k | 0 < k < |c| ensures Linked(d, c[k - 1], c[k]) {
      var j := k - 1;
      assert j > 0 ==> Linked(d, chain[j - 1], chain[j]);
    }
    forall j, k | 0 <= j < k < |c| ensures c[j] != c[k] {
      assert c[k] in chain;
    }
  }

  method WalkChain(d: Dag, start: int, claimed: set<int>) returns (chain: seq<int>)
    requires Growing(d) && Ascending(d) && IsNode(d, start) && start !in claimed
    ensures chain == ChainFrom(d, start, claimed)
  {
    chain := [];
    var cur, going := start, true;
    while going && cur !in claimed
      invariant IsNode(d, cur)
      invariant if going && cur !in claimed then chain + ChainFrom(d, cur, claimed) == ChainFrom(d, start, claimed)
                else chain == ChainFrom(d, start, claimed)
      decreases going, |d.nodes| - cur
    {
      ghost var whole := chain;
      chain := chain + [cur];
      if |d.nodes[cur].dependents| != 1 {
        going := false;
      } else {
        assert d.nodes[cur].dependents[0] in d.nodes[cur].dependents;
        var next := d.nodes[cur].dependents[0];
        assert DependsOn(d, next, cur);
        if |d.nodes[next].deps| != 1 {
          going := false;
        } else {
          assert cur in d.nodes[next].deps && NextOnChain(d, cur) == next > cur;
          assert next !in claimed ==> whole + ([cur] + ChainFrom(d, next, claimed)) == chain + ChainFrom(d, next,
                                               claimed);
          cur := next;
        }
      }
    }
  }

  // ---- chains of different start nodes never meet ----

  lemma {:induction false} SharedMember(d: Dag, a: seq<int>, b: seq<int>, x: nat, y: nat)
    requires IsChain(d, a) && IsChain(d, b) && d.nodes[a[0]].deps == [] && d.nodes[b[0]].deps == []
    requires x < |a| && y < |b| && a[x] == b[y]
    ensures a[0] == b[0]
    decreases x
  {
    var u, v := x - 1, y - 1;
    if x > 0 {
      assert Linked(d, a[x - 1], a[x]);
    }
    if y > 0 {
      assert Linked(d, b[y - 1], b[y]);
    }
    if x > 0 {
      SharedMember(d, a, b, u, v);
    }
  }

  lemma {:induction false} NothingClaimedAhead(d: Dag, i: int, claimed: set<int>)
    requires 0 <= i < |d.nodes| && forall m :: m in ChainFrom(d, i, {}) && m != i ==> m !in claimed
    requires Growing(d) && Ascending(d)
    ensures ChainFrom(d, i, claimed) == ChainFrom(d, i, {})
    decreases |d.nodes| - i
  {
    var next := NextOnChain(d, i);
    if next > i {
      ChainFromIsMaximal(d, next, {});
      assert ChainFrom(d, i, {}) == [i] + ChainFrom(d, next, {}) && next in ChainFrom(d, next, {});
      NothingClaimedAhead(d, next, claimed);
    }
  }

  /** One maximal chain per dependency-free node before `n`, in node order. */
  function ChainsOf(d: Dag, n: nat): seq<seq<int>>
    requires n <= |d.nodes|
  {
    if n == 0 then [] else ChainsOf(d, n - 1) + if d.nodes[n - 1].deps == [] then [ChainFrom(d, n - 1, {})] else []
  }

  ghost predicate StartsChain(d: Dag, n: int, c: seq<int>) {
    0 <= n < |d.nodes| && d.nodes[n].deps == [] && c == ChainFrom(d, n, {})
  }

  /** Each such node has its chain in the list, and the list holds nothing else. */
  lemma {:induction false} ChainsListed(d: Dag, n: nat)
    requires n <= |d.nodes|
    ensures forall c :: c in ChainsOf(d, n) ==> exists s :: s < n && StartsChain(d, s, c)
    ensures forall s, c :: s < n && StartsChain(d, s, c) ==> c in ChainsOf(d, n)
  {
    if n > 0 {
      var last := n - 1;
      ChainsListed(d, last);
      forall c | c in ChainsOf(d, n) ensures exists s :: s < n && StartsChain(d, s, c) {
        if c !in ChainsOf(d, last) {
          assert StartsChain(d, last, c);
        }
      }
    }
  }

  /** The greedy groups of all chains, in node order. */
  function InverseGroups(d: Dag, reg: StageRegistry): seq<Group> {
    InstalledOn(d, reg, ChainsOf(d, |d.nodes|))
  }

  method InstallGreedily(d: Dag, reg: StageRegistry, chain: seq<int>) returns (added: seq<Group>)
    requires IsChain(d, chain)
    ensures added == GroupsOn(chain, GreedyFrom(OnChain(d, reg, chain), |chain|, 0))
    ensures GroupsOK(d, added) && forall x :: 0 <= x < |added| ==> |added[x]| >= 2
    ensures forall x, m :: 0 <= x < |added| && m in added[x] ==> m in chain
  {
    var onChain := OnChain(d, reg, chain);
    var spans := SelectGreedily(|chain|, onChain);
    GreedyIsMaximal(onChain, |chain|, 0);
    forall s | s in spans ensures s.begin <= s.end <= |chain| {
      OrderedMember(onChain, 0, |chain|, spans, s);
    }
    added := BuildGroups(chain, spans);
    GroupsOnChain(d, chain, onChain, 0, spans);
    assert chain[0..] == chain;
  }

  /** Claimed nodes lie on chains of earlier start nodes. */
  ghost predicate ClaimedBefore(d: Dag, claimed: set<int>, n: int) {
    forall m :: m in claimed ==>
        exists s :: 0 <= s < n && s < |d.nodes| && d.nodes[s].deps == [] && m in ChainFrom(d, s, {})
  }

  lemma StartIsFree(d: Dag, claimed: set<int>, start: int)
    requires Growing(d) && Ascending(d) && IsNode(d, start) && d.nodes[start].deps == []
    requires ClaimedBefore(d, claimed, start)
    ensures start !in claimed && ChainFrom(d, start, claimed) == ChainFrom(d, start, {})
    ensures forall m :: m in ChainFrom(d, start, {}) ==> m !in claimed
  {
    ChainFromIsMaximal(d, start, {});
    var mine := ChainFrom(d, start, {});
    forall m | m in mine ensures m !in claimed {
      if m in claimed {
        var s :| 0 <= s < start && d.nodes[s].deps == [] && m in ChainFrom(d, s, {});
        ChainsMeet(d, s, start, m);
      }
    }
    NothingClaimedAhead(d, start, claimed);
  }

  /** A node on the chains of two dependency-free nodes makes them the same node. */
  lemma ChainsMeet(d: Dag, s: int, t: int, m: int)
    requires Growing(d) && Ascending(d) && IsNode(d, s) && IsNode(d, t) && d.nodes[s].deps == []
    requires d.nodes[t].deps == []
    requires m in ChainFrom(d, s, {}) && m in ChainFrom(d, t, {})
    ensures s == t
  {
    ChainFromIsMaximal(d, s, {});
    ChainFromIsMaximal(d, t, {});
    var a, b := ChainFrom(d, s, {}), ChainFrom(d, t, {});
    var x :| 0 <= x < |a| && a[x] == m;
    var y :| 0 <= y < |b| && b[y] == m;
    SharedMember(d, a, b, x, y);
  }

  /** All start nodes before `n` have been handled. */
  ghost predicate Selecting(d: Dag, reg: StageRegistry, n: nat, groups: seq<Group>, claimed: set<int>) {
    && n <= |d.nodes| && groups == InstalledOn(d, reg, ChainsOf(d, n)) && ClaimedBefore(d, claimed, n)
    && GroupsOK(d, groups) && (forall x :: 0 <= x < |groups| ==> |groups[x]| >= 2)
    && (forall x, m :: 0 <= x < |groups| && m in groups[x] ==> m in claimed)
  }

  lemma SkipDependent(d: Dag, reg: StageRegistry, n: nat, next: nat, groups: seq<Group>, claimed: set<int>)
    requires Selecting(d, reg, n, groups, claimed) && next == n + 1 <= |d.nodes| && d.nodes[n].deps != []
    ensures Selecting(d, reg, next, groups, claimed)
  {
    assert ChainsOf(d, next) == ChainsOf(d, n) + [] == ChainsOf(d, n);
  }

  lemma CoverChain(d: Dag, reg: StageRegistry, n: nat, next: nat, groups: seq<Group>, claimed: set<int>,
                   added: seq<Group>)
    requires Growing(d) && Ascending(d) && Selecting(d, reg, n, groups, claimed)
    requires next == n + 1 <= |d.nodes| && d.nodes[n].deps == []
    requires var c := ChainFrom(d, n, {}); added == GroupsOn(c, GreedyFrom(OnChain(d, reg, c), |c|, 0))
    requires GroupsOK(d, added) && forall x :: 0 <= x < |added| ==> |added[x]| >= 2
    requires forall x, m :: 0 <= x < |added| && m in added[x] ==> m in ChainFrom(d, n, {})
    ensures Selecting(d, reg, next, groups + added, claimed + MembersOf(added))
  {
    StartIsFree(d, claimed, n);
    forall x, y, m | 0 <= x < |groups| && 0 <= y < |added| && m in groups[x] ensures m !in added[y] {
      assert m in claimed;
    }
    JoinGroups(d, groups, added);
    OneMoreChain(d, reg, ChainsOf(d, n), ChainFrom(d, n, {}));
  }

  /** All groups the inverse builder installs: every maximal chain is walked, and greedily covered. */
  method SelectInverseGroups(d: Dag, reg: StageRegistry) returns (groups: seq<Group>)
    requires Growing(d) && Ascending(d)
    ensures groups == InverseGroups(d, reg)
    ensures GroupsOK(d, groups) && forall x :: 0 <= x < |groups| ==> |groups[x]| >= 2
  {
    groups := [];
    var claimed: set<int> := {};
    for start := 0 to |d.nodes|
      invariant Selecting(d, reg, start, groups, claimed)
    {
      ghost var next := start + 1;
      if d.nodes[start].deps != [] {
        SkipDependent(d, reg, start, next, groups, claimed);
        continue;
      }
      StartIsFree(d, claimed, start);
      if start in claimed {
        continue;
      }
      var chain := WalkChain(d, start, claimed);
      ChainFromIsMaximal(d, start, {});
      var added := InstallGreedily(d, reg, chain);
      CoverChain(d, reg, start, next, groups, claimed, added);
      groups := groups + added;
      claimed := claimed + MembersOf(added);
    }
  }

  lemma OneMoreChain(d: Dag, reg: StageRegistry, chains: seq<seq<int>>, c: seq<int>)
    ensures InstalledOn(d, reg, chains + [c]) ==
        InstalledOn(d, reg, chains) + GroupsOn(c, GreedyFrom(OnChain(d, reg, c), |c|, 0))
  {
    assert (chains + [c])[..|chains|] == chains;
  }

  function MembersOf(groups: seq<Group>): (r: set<int>)
    ensures forall m :: m in r <==> exists x :: 0 <= x < |groups| && m in groups[x]
  {
    set x, m | 0 <= x < |groups| && m in groups[x] :: m
  }

  /** What greedy selection installs on a list of chains, in order. */
  function InstalledOn(d: Dag, reg: StageRegistry, chains: seq<seq<int>>): seq<Group>
    decreases |chains|
  {
    if chains == [] then [] else
      var c := chains[|chains| - 1];
      InstalledOn(d, reg, chains[..|chains| - 1]) + GroupsOn(c, GreedyFrom(OnChain(d, reg, c), |c|, 0))
  }

  // ---- the inverse selection is maximal on the whole DAG ----

  /** Some installed group shares a node with `run`. */
  ghost predicate Touched(run: seq<int>, groups: seq<Group>) {
    exists x, m :: 0 <= x < |groups| && m in groups[x] && m in run
  }

  lemma {:induction false} InstalledCovers(d: Dag, reg: StageRegistry, chains: seq<seq<int>>, c: seq<int>, g: Group)
    requires c in chains && g in GroupsOn(c, GreedyFrom(OnChain(d, reg, c), |c|, 0))
    ensures g in InstalledOn(d, reg, chains)
    decreases |chains|
  {
    var last := |chains| - 1;
    assert chains == chains[..last] + [chains[last]];
    if c != chains[last] {
      InstalledCovers(d, reg, chains[..last], c, g);
    }
  }

  lemma {:induction false} SpanIsGroup(chain: seq<int>, spans: seq<Span>, s: Span)
    requires s in spans && s.begin <= s.end <= |chain|
    ensures chain[s.begin..s.end] in GroupsOn(chain, spans)
  {
    if s != spans[0] {
      SpanIsGroup(chain, spans[1..], s);
    }
  }

  /**
   * Every registered run of at least two consecutive nodes on a chain that starts at a
   * dependency-free node shares a node with an installed group.
   */
  lemma InverseSelectionIsMaximal(d: Dag, reg: StageRegistry, start: int, begin: nat, end: nat)
    requires Growing(d) && Ascending(d) && IsNode(d, start) && d.nodes[start].deps == []
    requires begin + 2 <= end <= |ChainFrom(d, start, {})|
    requires reg(StagesOf(d, ChainFrom(d, start, {})[begin..end]))
    ensures Touched(ChainFrom(d, start, {})[begin..end], InverseGroups(d, reg))
  {
    var c := ChainFrom(d, start, {});
    ChainsListed(d, |d.nodes|);
    assert StartsChain(d, start, c);
    var g := MeetsGreedyGroup(d, reg, c, begin, end);
    InstalledCovers(d, reg, ChainsOf(d, |d.nodes|), c, g);
    var x :| 0 <= x < |InverseGroups(d, reg)| && InverseGroups(d, reg)[x] == g;
    var m :| m in g && m in c[begin..end];
    assert m in InverseGroups(d, reg)[x];
  }

  lemma MeetsGreedyGroup(d: Dag, reg: StageRegistry, c: seq<int>, begin: nat, end: nat) returns (g: Group)
    requires begin + 2 <= end <= |c| && reg(StagesOf(d, c[begin..end]))
    ensures g in GroupsOn(c, GreedyFrom(OnChain(d, reg, c), |c|, 0)) && exists m :: m in g && m in c[begin..end]
  {
    var onChain := OnChain(d, reg, c);
    var spans := GreedyFrom(onChain, |c|, 0);
    GreedyIsMaximal(onChain, |c|, 0);
    var s := Span(begin, end);
    assert Fits(onChain, 0, |c|, s);
    assert Hit(s, spans);
    var t :| t in spans && !Apart(s, t);
    OrderedMember(onChain, 0, |c|, spans, t);
    SpanIsGroup(c, spans, t);
    g := c[t.begin..t.end];
    var k := if begin < t.begin then t.begin else begin;
    assert g[k - t.begin] == c[k] && c[begin..end][k - begin] == c[k];
    assert c[k] in g && c[k] in c[begin..end];
  }

  // ---- levels, streams and sizes do not matter to the selection ----

  ghost predicate SameShape(d: Dag, e: Dag) {
    && |e.nodes| == |d.nodes|
    && forall i :: IsNode(d, i) ==> SameNode(d.nodes[i], e.nodes[i])
  }

  ghost predicate SameNode(a: Node, b: Node) {
    b.stage == a.stage && b.deps == a.deps && b.dependents == a.dependents
  }

  lemma {:induction false} ShapeDecidesChain(d: Dag, e: Dag, i: int)
    requires SameShape(d, e) && IsNode(d, i)
    ensures ChainFrom(e, i, {}) == ChainFrom(d, i, {})
    decreases |d.nodes| - i
  {
    assert SameNode(d.nodes[i], e.nodes[i]);
    var next := NextOnChain(d, i);
    if |d.nodes[i].dependents| == 1 && IsNode(d, d.nodes[i].dependents[0]) {
      assert SameNode(d.nodes[d.nodes[i].dependents[0]], e.nodes[d.nodes[i].dependents[0]]);
    }
    assert NextOnChain(e, i) == next;
    if next > i {
      ShapeDecidesChain(d, e, next);
    }
  }

  lemma {:induction false} ShapeDecidesChains(d: Dag, e: Dag, n: nat)
    requires SameShape(d, e) && n <= |d.nodes|
    ensures ChainsOf(e, n) == ChainsOf(d, n)
  {
    if n > 0 {
      var last := n - 1;
      ShapeDecidesChains(d, e, last);
      ShapeDecidesChain(d, e, last);
      assert SameNode(d.nodes[last], e.nodes[last]);
    }
  }

  lemma SameStages(d: Dag, e: Dag, run: seq<int>)
    requires SameShape(d, e)
    ensures StagesOf(e, run) == StagesOf(d, run)
  {
    forall k | 0 <= k < |run| && 0 <= run[k] < |d.nodes| ensures e.nodes[run[k]].stage == d.nodes[run[k]].stage {
      assert SameNode(d.nodes[run[k]], e.nodes[run[k]]);
    }
  }

  lemma {:induction false} SameLongestEnd(a: Registry, b: Registry, begin: nat, end: nat)
    requires forall x: nat, y: nat :: a(x, y) == b(x, y)
    ensures LongestEnd(a, begin, end) == LongestEnd(b, begin, end)
    decreases end
  {
    if end > 0 {
      SameLongestEnd(a, b, begin, end - 1);
    }
  }

  lemma {:induction false} SameGreedy(a: Registry, b: Registry, count: nat, begin: nat)
    requires forall x: nat, y: nat :: a(x, y) == b(x, y)
    ensures GreedyFrom(a, count, begin) == GreedyFrom(b, count, begin)
    decreases count - begin
  {
    if begin + 1 < count {
      LongestEndInRange(a, begin, count);
      SameLongestEnd(a, b, begin, count);
      SameGreedy(a, b, count, if LongestEnd(a, begin, count) == 0 then begin + 1 else LongestEnd(a, begin, count));
    }
  }

  lemma {:induction false} ShapeDecidesInstalled(d: Dag, e: Dag, reg: StageRegistry, chains: seq<seq<int>>)
    requires SameShape(d, e)
    ensures InstalledOn(e, reg, chains) == InstalledOn(d, reg, chains)
    decreases |chains|
  {
    if chains != [] {
      var c := chains[|chains| - 1];
      ShapeDecidesInstalled(d, e, reg, chains[..|chains| - 1]);
      forall x: nat, y: nat ensures OnChain(d, reg, c)(x, y) == OnChain(e, reg, c)(x, y) {
        if x <= y <= |c| {
          SameStages(d, e, c[x..y]);
        }
      }
      SameGreedy(OnChain(d, reg, c), OnChain(e, reg, c), |c|, 0);
    }
  }

  lemma ShapeDecidesGroups(d: Dag, e: Dag, reg: StageRegistry)
    requires SameShape(d, e)
    ensures InverseGroups(e, reg) == InverseGroups(d, reg)
  {
    ShapeDecidesChains(d, e, |d.nodes|);
    ShapeDecidesInstalled(d, e, reg, ChainsOf(d, |d.nodes|));
  }

  // ---- forward: the planner on each maximal chain ----

  method InstallBest(d: Dag, reg: StageRegistry, chain: seq<int>) returns (added: seq<Group>, ghost spans: seq<Span>)
    requires IsChain(d, chain)
    ensures added == GroupsOn(chain, spans) && Best(OnChain(d, reg, chain), |chain|, spans)
    ensures GroupsOK(d, added) && forall x :: 0 <= x < |added| ==> |added[x]| >= 2
    ensures forall x, m :: 0 <= x < |added| && m in added[x] ==> m in chain
  {
    var onChain := OnChain(d, reg, chain);
    var selected := PlanFusion(|chain|, onChain);
    forall s | s in selected ensures s.begin <= s.end <= |chain| {
      OrderedMember(onChain, 0, |chain|, selected, s);
    }
    added := BuildGroups(chain, selected);
    GroupsOnChain(d, chain, onChain, 0, selected);
    assert chain[0..] == chain;
    spans := selected;
  }

  /** Ordered registered spans that save as many launches as any disjoint registered spans. */
  ghost predicate Best(reg: Registry, count: nat, spans: seq<Span>) {
    Ordered(reg, 0, count, spans) && forall sel :: Selection(reg, 0, count, sel) ==> Total(sel) <= SavedBy(spans)
  }

  /** Chain by chain, the groups cut at the given spans. */
  function GroupsOnAll(chains: seq<seq<int>>, spans: seq<seq<Span>>): seq<Group>
    requires |spans| == |chains|
    decreases |chains|
  {
    if chains == [] then [] else
      var last := |chains| - 1;
      GroupsOnAll(chains[..last], spans[..last]) + GroupsOn(chains[last], spans[last])
  }

  ghost predicate BestOnAll(d: Dag, reg: StageRegistry, chains: seq<seq<int>>, spans: seq<seq<Span>>) {
    |spans| == |chains| && forall c :: 0 <= c < |chains| ==> Best(OnChain(d, reg, chains[c]), |chains[c]|, spans[c])
  }

  /**
   * `maximal` is what planFusionGroups() promises: disjoint linear chains. What is installed is a
   * best selection on every one of them.
   */
  method PlanForwardGroups(d: Dag, reg: StageRegistry, maximal: seq<seq<int>>)
    returns (groups: seq<Group>, ghost spans: seq<seq<Span>>)
    requires forall c :: 0 <= c < |maximal| ==> IsChain(d, maximal[c])
    requires forall a, b, m :: 0 <= a < b < |maximal| && m in maximal[a] ==> m !in maximal[b]
    ensures BestOnAll(d, reg, maximal, spans) && groups == GroupsOnAll(maximal, spans)
    ensures GroupsOK(d, groups) && forall x :: 0 <= x < |groups| ==> |groups[x]| >= 2
  {
    groups, spans := [], [];
    for c := 0 to |maximal|
      invariant BestOnAll(d, reg, maximal[..c], spans) && groups == GroupsOnAll(maximal[..c], spans)
      invariant GroupsOK(d, groups) && forall x :: 0 <= x < |groups| ==> |groups[x]| >= 2
      invariant forall x, m :: 0 <= x < |groups| && m in groups[x] ==> exists a :: 0 <= a < c && m in maximal[a]
    {
      var chain := maximal[c];
      ghost var best;
      var added;
      added, best := InstallBest(d, reg, chain);
      forall x, y, m | 0 <= x < |groups| && 0 <= y < |added| && m in groups[x] ensures m !in added[y] {
        var a :| 0 <= a < c && m in maximal[a];
      }
      JoinGroups(d, groups, added);
      assert maximal[..c + 1][..c] == maximal[..c] && (spans + [best])[..c] == spans;
      groups, spans := groups + added, spans + [best];
    }
    assert maximal[..|maximal|] == maximal;
  }

  /** Launches removed by running each group as one kernel. */
  function LaunchesSaved(groups: seq<Group>): int {
    if groups == [] then 0 else |groups[0]| - 1 + LaunchesSaved(groups[1..])
  }

  lemma {:induction false} SavedByGroups(chain: seq<int>, reg: Registry, lo: nat, spans: seq<Span>)
    requires Ordered(reg, lo, |chain|, spans)
    ensures LaunchesSaved(GroupsOn(chain, spans)) == SavedBy(spans)
    decreases |spans|
  {
    if spans != [] {
      SavedByGroups(chain, reg, spans[0].end, spans[1..]);
      assert GroupsOn(chain, spans)[1..] == GroupsOn(chain, spans[1..]);
    }
  }

  lemma {:induction false} SavedAdds(a: seq<Group>, b: seq<Group>)
    ensures LaunchesSaved(a + b) == LaunchesSaved(a) + LaunchesSaved(b)
  {
    if a == [] {
      assert a + b == b;
    } else {
      SavedAdds(a[1..], b);
      assert (a + b)[1..] == a[1..] + b;
    }
  }

  ghost predicate RegisteredOnAll(d: Dag, reg: StageRegistry, chains: seq<seq<int>>, spans: seq<seq<Span>>) {
    |spans| == |chains| && forall c :: 0 <= c < |chains| ==>
        Ordered(OnChain(d, reg, chains[c]), 0, |chains[c]|, spans[c])
  }

  /** No choice of disjoint registered spans on the chains saves more launches in total than the planner's. */
  lemma {:induction false} PlannedGroupsSaveMost(d: Dag, reg: StageRegistry, chains: seq<seq<int>>,
                                                 best: seq<seq<Span>>, other: seq<seq<Span>>)
    requires BestOnAll(d, reg, chains, best) && RegisteredOnAll(d, reg, chains, other)
    ensures LaunchesSaved(GroupsOnAll(chains, other)) <= LaunchesSaved(GroupsOnAll(chains, best))
    decreases |chains|
  {
    if chains != [] {
      var last := |chains| - 1;
      var c := chains[last];
      PlannedGroupsSaveMost(d, reg, chains[..last], best[..last], other[..last]);
      SavedAdds(GroupsOnAll(chains[..last], best[..last]), GroupsOn(c, best[last]));
      SavedAdds(GroupsOnAll(chains[..last], other[..last]), GroupsOn(c, other[last]));
      assert Best(OnChain(d, reg, c), |c|, best[last]) && Ordered(OnChain(d, reg, c), 0, |c|, other[last]);
      SavedByGroups(c, OnChain(d, reg, c), 0, best[last]);
      SavedByGroups(c, OnChain(d, reg, c), 0, other[last]);
      OrderedIsSelection(OnChain(d, reg, c), 0, |c|, other[last]);
    }
  }
}
