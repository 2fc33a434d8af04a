/**
 * Which buffers leave the forward pipeline, and why the inverse builder can always wire itself from
 * them: autoDetectUnconnectedOutputs() (src/pipeline/compressor.cpp:759-837) and the forward topology
 * handed to the builder (src/pipeline/compressor_exec.cpp:655-665).
 */
module OutputWiring {
  import opened Values
  import opened Graph
  import opened Building
  import opened CompressionDag
  import opened InverseDag

  // ---- specification ----

  /** addStage() gave the node one buffer per output port, in port order. */
  ghost predicate PortsInOrder(d: Dag) {
    forall i :: IsNode(d, i) ==> NodePortsInOrder(d.nodes[i])
  }

  ghost predicate NodePortsInOrder(n: Node) {
    && (forall k :: k in n.ports <==> 0 <= k < |n.outputs|)
    && (forall k :: 0 <= k < |n.outputs| ==> n.ports[k] == n.outputs[k])
    && (forall j, k :: 0 <= j < k < |n.outputs| ==> n.outputs[j] != n.outputs[k])
  }

  predicate Unconsumed(d: Dag, b: int) {
    b in d.buffers && d.buffers[b].consumers == []
  }

  /** Unconsumed outputs among a node's first `count` ports, in port order. */
  function OpenOutputs(d: Dag, outs: seq<int>, count: nat): seq<int>
    requires count <= |outs|
  {
    if count == 0 then [] else
      OpenOutputs(d, outs, count - 1) + if Unconsumed(d, outs[count - 1]) then [outs[count - 1]] else []
  }

  ghost predicate HasPorts(d: Dag, info: StageInfo, count: int) {
    forall i :: 0 <= i < count && i < |d.nodes| ==> info.numOutputs(d.nodes[i].stage) <= |d.nodes[i].outputs|
  }

  /** output_buffer_ids_: node by node, port by port. */
  function PipelineOutputs(d: Dag, info: StageInfo, count: nat): seq<int>
    requires count <= |d.nodes|
  {
    if count == 0 then [] else
      var n := d.nodes[count - 1];
      PipelineOutputs(d, info, count - 1) + OpenOutputs(d, n.outputs, Min(info.numOutputs(n.stage), |n.outputs|))
  }

  /** Ports the stage no longer has are dropped. */
  function Trimmed(n: Node, count: nat): Node {
    n.(outputs := if count < |n.outputs| then n.outputs[..count] else n.outputs,
       ports := PortsBelow(n.ports, count))
  }

  function PortsBelow(ports: map<int, int>, count: nat): (r: map<int, int>)
    ensures forall k :: k in r <==> k in ports && k < count
    ensures forall k :: k in r ==> r[k] == ports[k]
  {
    map k | k in ports && k < count :: ports[k]
  }

  function OutputTag(info: StageInfo, n: Node, k: int): string {
    "pipeline_output_" + info.name(n.stage) + "." + info.outputName(n.stage, k)
  }

  /** A detected output is tagged and kept alive after the run; every other buffer is untouched. */
  ghost predicate MarkedOutput(a: BufferInfo, b: BufferInfo, isOutput: bool) {
    b == if isOutput then a.(tag := b.tag, isPersistent := true) else a
  }

  ghost predicate MarkedOutputs(before: map<int, BufferInfo>, now: map<int, BufferInfo>, outputs: seq<int>) {
    now.Keys == before.Keys && forall b :: b in before && b in now ==> MarkedOutput(before[b], now[b], b in outputs)
  }

  lemma MarkOneMore(before: map<int, BufferInfo>, now: map<int, BufferInfo>, found: seq<int>, b: int, tag: string)
    requires MarkedOutputs(before, now, found) && b in before
    ensures now[b].consumers == before[b].consumers
    ensures MarkedOutputs(before, now[b := now[b].(tag := tag)][b := now[b].(tag := tag, isPersistent := true)],
        found + [b])
  {
  }

  // ---- the algorithm ----

  function Keep(s: seq<int>, gone: set<int>): seq<int> {
    if s == [] then []
    else if s[0] in gone then Keep(s[1..], gone)
    else [s[0]] + Keep(s[1..], gone)
  }

  /** erase(remove(...)): every occurrence of `b` goes. */
  method EraseAll(s: seq<int>, b: int, ghost all: seq<int>, ghost gone: set<int>) returns (r: seq<int>)
    requires s == Keep(all, gone)
    ensures r == Keep(all, gone + {b})
  {
    r := [];
    for i := 0 to |s|
      invariant r + Keep(s[i..], {b}) == Keep(s, {b})
    {
      assert s[i..][0] == s[i] && s[i..][1..] == s[i + 1..];
      if s[i] != b {
        r := r + [s[i]];
      }
    }
    KeepTwice(all, gone, b);
  }

  lemma {:induction false} KeepTwice(s: seq<int>, gone: set<int>, b: int)
    ensures Keep(Keep(s, gone), {b}) == Keep(s, gone + {b})
  {
    if s != [] {
      KeepTwice(s[1..], gone, b);
      if s[0] !in gone {
        assert Keep(s, gone)[1..] == Keep(s[1..], gone) && Keep(s, gone)[0] == s[0];
      }
    }
  }

  lemma {:induction false} KeepNone(s: seq<int>)
    ensures Keep(s, {}) == s
  {
    if s != [] {
      KeepNone(s[1..]);
    }
  }

  /** Dropping exactly the elements from `count` on leaves the first `count`. */
  lemma {:induction false} KeepPrefix(s: seq<int>, gone: set<int>, count: nat)
    requires count <= |s| && forall k :: 0 <= k < |s| ==> (s[k] in gone <==> k >= count)
    ensures Keep(s, gone) == s[..count]
  {
    if s != [] {
      KeepPrefix(s[1..], gone, if count == 0 then 0 else count - 1);
    }
  }

  /** Ports still to drop are in `stale`; the dropped ones are gone from both lists. */
  ghost predicate Dropping(n: Node, outs: seq<int>, ports: map<int, int>, count: nat, stale: set<int>, gone: set<int>) {
    && (forall k :: k in stale ==> k in n.ports && k >= count)
    && outs == Keep(n.outputs, gone)
    && (forall k :: 0 <= k < |n.outputs| ==> (n.outputs[k] in gone <==> k >= count && k !in stale))
    && (forall k :: k in ports <==> k in n.ports && (k < count || k in stale))
    && (forall k :: k in ports ==> ports[k] == n.ports[k])
  }

  lemma DropOne(n: Node, outs: seq<int>, ports: map<int, int>, count: nat, stale: set<int>, gone: set<int>, k: int,
                left: seq<int>)
    requires NodePortsInOrder(n) && Dropping(n, outs, ports, count, stale, gone) && k in stale
    requires left == Keep(n.outputs, gone + {n.ports[k]})
    ensures Dropping(n, left, ports - {k}, count, stale - {k}, gone + {n.ports[k]})
  {
    assert n.ports[k] == n.outputs[k];
  }

  lemma DroppedAll(n: Node, outs: seq<int>, ports: map<int, int>, count: nat, gone: set<int>)
    requires NodePortsInOrder(n) && count <= |n.outputs| && Dropping(n, outs, ports, count, {}, gone)
    ensures n.(outputs := outs, ports := ports) == Trimmed(n, count)
  {
    KeepPrefix(n.outputs, gone, count);
    assert n.outputs[..|n.outputs|] == n.outputs;
    var kept := PortsBelow(n.ports, count);
    assert forall k :: k in kept <==> k in ports;
    SameMap(ports, kept);
  }

  /** The stale-port loop of one node. */
  method DropStalePorts(n: Node, count: nat) returns (r: Node)
    requires NodePortsInOrder(n) && count <= |n.outputs|
    ensures r == Trimmed(n, count)
  {
    var stale := set k | k in n.ports && k >= count;
    var outs, ports := n.outputs, n.ports;
    ghost var gone: set<int> := {};
    KeepNone(n.outputs);
    while stale != {}
      invariant Dropping(n, outs, ports, count, stale, gone)
      decreases |stale|
    {
      var k := AnyOf(stale);
      var b := ports[k];
      var left := EraseAll(outs, b, n.outputs, gone);
      DropOne(n, outs, ports, count, stale, gone, k, left);
      gone := gone + {b};
      outs := left;
      ports := ports - {k};
      stale := stale - {k};
    }
    DroppedAll(n, outs, ports, count, gone);
    r := n.(outputs := outs, ports := ports);
  }

  /** One node's open ports; false when a port has no buffer. */
  method DetectOnNode(dag: CompressionDAG, info: StageInfo, i: nat, ghost d: Dag) returns (ok: bool, found: seq<int>)
    requires i < |dag.nodes| && NodePortsInOrder(dag.nodes[i]) && dag.buffers.Keys == d.buffers.Keys
    requires forall k :: 0 <= k < |dag.nodes[i].outputs| ==> dag.nodes[i].outputs[k] in d.buffers
    requires forall b :: b in d.buffers ==> dag.buffers[b].consumers == d.buffers[b].consumers
    modifies dag`buffers
    ensures ok <==> info.numOutputs(dag.nodes[i].stage) <= |dag.nodes[i].outputs|
    ensures ok ==> found == OpenOutputs(d, dag.nodes[i].outputs, info.numOutputs(dag.nodes[i].stage))
    ensures MarkedOutputs(old(dag.buffers), dag.buffers, found)
  {
    var n := dag.nodes[i];
    found := [];
    var k := 0;
    while k < info.numOutputs(n.stage)
      invariant k <= info.numOutputs(n.stage) && k <= |n.outputs| && found == OpenOutputs(d, n.outputs, k)
      invariant MarkedOutputs(old(dag.buffers), dag.buffers, found)
    {
      if k !in n.ports {
        return false, found;
      }
      var b := n.ports[k];
      if dag.buffers[b].consumers == [] {
        MarkOneMore(old(dag.buffers), dag.buffers, found, b, OutputTag(info, n, k));
        dag.UpdateBufferTag(b, OutputTag(info, n, k));
        dag.SetBufferPersistent(b, true);
        found := found + [b];
      }
      k := k + 1;
    }
    ok := true;
  }

  lemma MarkedInTurn(a: map<int, BufferInfo>, b: map<int, BufferInfo>, c: map<int, BufferInfo>, first: seq<int>,
                     more: seq<int>)
    requires MarkedOutputs(a, b, first) && MarkedOutputs(b, c, more)
    ensures MarkedOutputs(a, c, first + more)
  {
  }

  ghost predicate SomeDetected(d: Dag, info: StageInfo, nodes: seq<Node>, buffers: map<int, BufferInfo>,
                               outputs: seq<int>, count: int)
    requires 0 <= count <= |d.nodes|
  {
    && HasPorts(d, info, count) && outputs == PipelineOutputs(d, info, count)
    && |nodes| == |d.nodes| && MarkedOutputs(d.buffers, buffers, outputs)
    && (forall i :: 0 <= i < |nodes| ==>
          nodes[i] == if i < count then Trimmed(d.nodes[i], info.numOutputs(d.nodes[i].stage)) else d.nodes[i])
  }

  /** False where the source throws for a missing buffer. */
  method AutoDetectUnconnectedOutputs(dag: CompressionDAG, info: StageInfo) returns (ok: bool, outputs: seq<int>)
    requires PortsInOrder(dag.Contents())
    requires forall i, k :: 0 <= i < |dag.nodes| && 0 <= k < |dag.nodes[i].outputs| ==>
      dag.nodes[i].outputs[k] in dag.buffers
    modifies dag`nodes, dag`buffers
    ensures ok <==> HasPorts(old(dag.Contents()), info, |old(dag.nodes)|)
    ensures ok ==> SomeDetected(old(dag.Contents()), info, dag.nodes, dag.buffers, outputs, |old(dag.nodes)|)
  {
    ghost var d := dag.Contents();
    outputs := [];
    for i := 0 to |dag.nodes|
      invariant SomeDetected(d, info, dag.nodes, dag.buffers, outputs, i)
    {
      assert NodePortsInOrder(d.nodes[i]) && dag.nodes[i] == d.nodes[i];
      ghost var next, before := i + 1, dag.buffers;
      var found;
      ok, found := DetectOnNode(dag, info, i, d);
      if !ok {
        return;
      }
      var n := DropStalePorts(dag.nodes[i], info.numOutputs(dag.nodes[i].stage));
      DetectedOne(d, info, dag.nodes, before, outputs, i, next, found, dag.buffers);
      dag.nodes := dag.nodes[i := n];
      outputs := outputs + found;
    }
    ok := true;
  }

  lemma DetectedOne(d: Dag, info: StageInfo, nodes: seq<Node>, before: map<int, BufferInfo>, outputs: seq<int>,
                    i: nat, next: nat,
                    found: seq<int>, after: map<int, BufferInfo>)
    requires i < |d.nodes| && next == i + 1 && SomeDetected(d, info, nodes, before, outputs, i)
    requires info.numOutputs(d.nodes[i].stage) <= |d.nodes[i].outputs|
    requires found == OpenOutputs(d, d.nodes[i].outputs, info.numOutputs(d.nodes[i].stage))
    requires MarkedOutputs(before, after, found)
    ensures SomeDetected(d, info, nodes[i := Trimmed(d.nodes[i], info.numOutputs(d.nodes[i].stage))], after,
        outputs + found, next)
  {
    MarkedInTurn(d.buffers, before, after, outputs, found);
    assert PipelineOutputs(d, info, next) == outputs + found;
  }

  // ---- what the list of pipeline outputs contains, and in which order ----

  /** Port `k` of node `i` exists and nothing reads it. */
  ghost predicate IsOpen(d: Dag, info: StageInfo, i: int, k: int) {
    IsNode(d, i) && 0 <= k < info.numOutputs(d.nodes[i].stage) && k < |d.nodes[i].outputs| &&
        Unconsumed(d, d.nodes[i].outputs[k])
  }

  /** Node by node, port by port. */
  ghost predicate Before(d: Dag, a: int, b: int) {
    && a in d.buffers && b in d.buffers
    && (d.buffers[a].producer < d.buffers[b].producer || (d.buffers[a].producer == d.buffers[b].producer &&
        d.buffers[a].port < d.buffers[b].port))
  }

  ghost predicate InPortOrder(d: Dag, s: seq<int>) {
    forall x, y :: 0 <= x < y < |s| ==> Before(d, s[x], s[y])
  }

  /** `b` is one of the first `count` ports of node `i`, and nothing reads it. */
  ghost predicate OpenBelow(d: Dag, i: int, count: int, b: int)
    requires IsNode(d, i) && count <= |d.nodes[i].outputs|
  {
    && b in d.buffers && d.buffers[b].producer == i && 0 <= d.buffers[b].port < count
    && d.nodes[i].outputs[d.buffers[b].port] == b && d.buffers[b].consumers == []
  }

  lemma JoinInPortOrder(d: Dag, a: seq<int>, b: seq<int>)
    requires InPortOrder(d, a) && InPortOrder(d, b)
    requires forall x, y :: x in a && y in b ==> Before(d, x, y)
    ensures InPortOrder(d, a + b)
  {
  }

  lemma {:induction false} OpenOutputsFacts(d: Dag, i: int, count: nat)
    requires Wired(d) && IsNode(d, i) && count <= |d.nodes[i].outputs|
    ensures var s := OpenOutputs(d, d.nodes[i].outputs, count);
      && (forall b :: b in s ==> OpenBelow(d, i, count, b))
      && (forall k :: 0 <= k < count && Unconsumed(d, d.nodes[i].outputs[k]) ==> d.nodes[i].outputs[k] in s)
      && InPortOrder(d, s)
  {
    if count > 0 {
      var last := count - 1;
      OpenOutputsFacts(d, i, last);
      var rest, b := OpenOutputs(d, d.nodes[i].outputs, last), d.nodes[i].outputs[last];
      assert Made(d, i, last, b);
      if Unconsumed(d, b) {
        JoinInPortOrder(d, rest, [b]);
      }
    }
  }

  /** `b` is an open port of one of the first `count` nodes. */
  ghost predicate ListedPort(d: Dag, info: StageInfo, count: int, b: int) {
    && b in d.buffers && 0 <= d.buffers[b].producer < count
    && IsOpen(d, info, d.buffers[b].producer, d.buffers[b].port)
    && d.nodes[d.buffers[b].producer].outputs[d.buffers[b].port] == b
  }

  ghost predicate ListsOpenPorts(d: Dag, info: StageInfo, count: int, s: seq<int>) {
    forall b :: b in s ==> ListedPort(d, info, count, b)
  }

  ghost predicate MissesNone(d: Dag, info: StageInfo, count: int, s: seq<int>) {
    forall i, k :: i < count && IsOpen(d, info, i, k) ==> d.nodes[i].outputs[k] in s
  }

  /** `more` holds the open ports of node `i`, in port order. */
  ghost predicate OpenOn(d: Dag, info: StageInfo, i: int, more: seq<int>) {
    && IsNode(d, i) && info.numOutputs(d.nodes[i].stage) <= |d.nodes[i].outputs|
    && (forall b :: b in more ==> OpenBelow(d, i, info.numOutputs(d.nodes[i].stage), b))
    && (forall k :: IsOpen(d, info, i, k) ==> d.nodes[i].outputs[k] in more)
  }

  lemma ListsOneMore(d: Dag, info: StageInfo, i: int, next: int, s: seq<int>, more: seq<int>)
    requires ListsOpenPorts(d, info, i, s) && OpenOn(d, info, i, more) && next == i + 1
    ensures ListsOpenPorts(d, info, next, s + more)
  {
    forall b | b in s + more ensures ListedPort(d, info, next, b) {
      if b in more {
        assert OpenBelow(d, i, info.numOutputs(d.nodes[i].stage), b);
      } else {
        assert ListedPort(d, info, i, b);
      }
    }
  }

  lemma MissesNoneMore(d: Dag, info: StageInfo, i: int, next: int, s: seq<int>, more: seq<int>)
    requires MissesNone(d, info, i, s) && OpenOn(d, info, i, more) && next == i + 1
    ensures MissesNone(d, info, next, s + more)
  {
    forall n, k | n < next && IsOpen(d, info, n, k) ensures d.nodes[n].outputs[k] in s + more {
      if n < i {
        assert d.nodes[n].outputs[k] in s;
      }
    }
  }

  lemma LaterNodeIsBehind(d: Dag, info: StageInfo, i: int, s: seq<int>, more: seq<int>)
    requires ListsOpenPorts(d, info, i, s) && OpenOn(d, info, i, more)
    ensures forall x, y :: x in s && y in more ==> Before(d, x, y)
  {
    forall x, y | x in s && y in more ensures Before(d, x, y) {
      assert ListedPort(d, info, i, x) && OpenBelow(d, i, info.numOutputs(d.nodes[i].stage), y);
    }
  }

  /** Every open port, and nothing else, is listed: in node-then-port order, hence exactly once. */
  lemma {:induction false} OutputsAreOpenPorts(d: Dag, info: StageInfo, count: nat)
    requires Wired(d) && count <= |d.nodes| && HasPorts(d, info, count)
    ensures ListsOpenPorts(d, info, count, PipelineOutputs(d, info, count))
    ensures MissesNone(d, info, count, PipelineOutputs(d, info, count))
    ensures InPortOrder(d, PipelineOutputs(d, info, count))
  {
    if count > 0 {
      var i := count - 1;
      OutputsAreOpenPorts(d, info, i);
      var s, m := PipelineOutputs(d, info, i), info.numOutputs(d.nodes[i].stage);
      var more := OpenOutputs(d, d.nodes[i].outputs, m);
      OpenOutputsFacts(d, i, m);
      ListsOneMore(d, info, i, count, s, more);
      MissesNoneMore(d, info, i, count, s, more);
      LaterNodeIsBehind(d, info, i, s, more);
      JoinInPortOrder(d, s, more);
    }
  }

  /** `b` occurs at exactly one position of `s`. */
  ghost predicate OccursOnce(s: seq<int>, b: int) {
    exists x :: 0 <= x < |s| && s[x] == b && forall y :: 0 <= y < |s| && s[y] == b ==> y == x
  }

  /**
   * After autoDetectUnconnectedOutputs(): a node keeps exactly the ports its stage has, port k at
   * position k, and each kept output is either read by a stage or exactly one pipeline output.
   */
  lemma EveryOutputReadOrListedOnce(d: Dag, info: StageInfo, e: Dag, outputs: seq<int>, i: int, k: int)
    requires Wired(d) && SomeDetected(d, info, e.nodes, e.buffers, outputs, |d.nodes|)
    requires IsNode(e, i) && 0 <= k < |e.nodes[i].outputs|
    ensures |e.nodes[i].outputs| == info.numOutputs(e.nodes[i].stage)
    ensures var b := e.nodes[i].outputs[k];
      && Made(e, i, k, b)
      && (if e.buffers[b].consumers != [] then b !in outputs else OccursOnce(outputs, b))
  {
    var b := e.nodes[i].outputs[k];
    assert Made(d, i, k, d.nodes[i].outputs[k]);
    assert MarkedOutput(d.buffers[b], e.buffers[b], b in outputs);
    OutputsAreOpenPorts(d, info, |d.nodes|);
    if Unconsumed(d, b) {
      assert IsOpen(d, info, i, k);
      var x :| 0 <= x < |outputs| && outputs[x] == b;
      forall y | 0 <= y < |outputs| && outputs[y] == b ensures y == x {
        assert !Before(d, b, b);
      }
    }
  }

  /** `f` has the stages, ports and readers that detection left; finalize() and preallocation keep them. */
  ghost predicate KeepsPorts(nodes: seq<Node>, buffers: map<int, BufferInfo>, f: Dag) {
    && |f.nodes| == |nodes| && f.buffers.Keys == buffers.Keys
    && (forall i :: 0 <= i < |nodes| ==> SamePorts(nodes[i], f.nodes[i]))
    && (forall b :: b in buffers && b in f.buffers ==> f.buffers[b].consumers == buffers[b].consumers)
  }

  ghost predicate SamePorts(a: Node, b: Node) {
    b.stage == a.stage && b.outputs == a.outputs
  }

  lemma {:induction false} SameOpenOutputs(d: Dag, f: Dag, a: seq<int>, b: seq<int>, count: nat)
    requires count <= |a| && count <= |b| && forall k :: 0 <= k < count ==> a[k] == b[k]
    requires forall x :: Unconsumed(d, x) <==> Unconsumed(f, x)
    ensures OpenOutputs(d, a, count) == OpenOutputs(f, b, count)
  {
    if count > 0 {
      SameOpenOutputs(d, f, a, b, count - 1);
    }
  }

  lemma SameReaders(d: Dag, buffers: map<int, BufferInfo>, outputs: seq<int>, f: Dag)
    requires MarkedOutputs(d.buffers, buffers, outputs) && f.buffers.Keys == buffers.Keys
    requires forall b :: b in buffers && b in f.buffers ==> f.buffers[b].consumers == buffers[b].consumers
    ensures forall x :: Unconsumed(d, x) <==> Unconsumed(f, x)
  {
    forall x ensures Unconsumed(d, x) <==> Unconsumed(f, x) {
      if x in d.buffers {
        assert MarkedOutput(d.buffers[x], buffers[x], x in outputs);
      }
    }
  }

  lemma {:induction false} DetectedUpTo(d: Dag, info: StageInfo, nodes: seq<Node>, buffers: map<int, BufferInfo>,
                                        outputs: seq<int>, f: Dag, n: nat)
    requires SomeDetected(d, info, nodes, buffers, outputs, |d.nodes|) && KeepsPorts(nodes, buffers, f)
    requires n <= |d.nodes|
    ensures PipelineOutputs(f, info, n) == PipelineOutputs(d, info, n)
  {
    if n > 0 {
      var i := n - 1;
      DetectedUpTo(d, info, nodes, buffers, outputs, f, i);
      SameReaders(d, buffers, outputs, f);
      assert SamePorts(nodes[i], f.nodes[i]);
      SameOpenOutputs(d, f, d.nodes[i].outputs, f.nodes[i].outputs, info.numOutputs(d.nodes[i].stage));
    }
  }

  /**
   * The list detection recorded is the list of pipeline outputs of the DAG it leaves behind, also
   * after finalize(), and that DAG has exactly the ports its stages report.
   */
  lemma DetectedIsPipelineOutputs(d: Dag, info: StageInfo, nodes: seq<Node>, buffers: map<int, BufferInfo>,
                                  outputs: seq<int>, f: Dag)
    requires SomeDetected(d, info, nodes, buffers, outputs, |d.nodes|) && KeepsPorts(nodes, buffers, f)
    ensures PipelineOutputs(f, info, |f.nodes|) == outputs
    ensures forall i :: IsNode(f, i) ==> info.numOutputs(f.nodes[i].stage) == |f.nodes[i].outputs|
  {
    DetectedUpTo(d, info, nodes, buffers, outputs, f, |d.nodes|);
    forall i | IsNode(f, i) ensures info.numOutputs(f.nodes[i].stage) == |f.nodes[i].outputs| {
      assert SamePorts(nodes[i], f.nodes[i]);
    }
  }

  /** Some dropped port is still read by a stage. */
  ghost predicate StalePortRead(d: Dag, info: StageInfo) {
    exists i, k :: DroppedPort(d, info, i, k) && !Unconsumed(d, d.nodes[i].outputs[k])
  }

  ghost predicate DroppedPort(d: Dag, info: StageInfo, i: int, k: int) {
    IsNode(d, i) && info.numOutputs(d.nodes[i].stage) <= k < |d.nodes[i].outputs|
  }

  /** Dropping ports leaves the edges consistent exactly when no stage reads a dropped one. */
  lemma DroppingKeepsWiringIff(d: Dag, info: StageInfo, e: Dag, outputs: seq<int>)
    requires Wired(d) && SomeDetected(d, info, e.nodes, e.buffers, outputs, |d.nodes|)
    ensures Wired(e) <==> !StalePortRead(d, info)
  {
    forall b | b in d.buffers ensures MarkedOutput(d.buffers[b], e.buffers[b], b in outputs) {
    }
    if StalePortRead(d, info) {
      var i, k :| DroppedPort(d, info, i, k) && !Unconsumed(d, d.nodes[i].outputs[k]);
      DroppedPortBreaksWiring(d, info, e, outputs, i, k);
    } else {
      forall i, k | IsNode(e, i) && 0 <= k < |e.nodes[i].inputs| ensures Fed(e, i, e.nodes[i].inputs[k]) {
        assert Fed(d, i, d.nodes[i].inputs[k]);
      }
      forall i, k | IsNode(e, i) && 0 <= k < |e.nodes[i].outputs| ensures Made(e, i, k, e.nodes[i].outputs[k]) {
        assert Made(d, i, k, d.nodes[i].outputs[k]);
      }
      forall b | b in e.buffers ensures BufferWired(e, b) {
        KeptBufferWired(d, info, e, outputs, b);
      }
    }
  }

  /** Stage 0 with two outputs, stage 1 reading the second. */
  ghost predicate SecondPortRead(d: Dag) {
    && |d.nodes| == 2 && d.buffers.Keys == {0, 1, 2}
    && d.nodes[0].outputs == [0, 1] && d.nodes[0].ports == map[0 := 0, 1 := 1]
    && d.nodes[1].outputs == [2] && d.nodes[1].ports == map[0 := 2]
    && d.buffers[1].producer == 0 && d.buffers[1].consumers == [1]
  }

  /** The two stages before the second reads from the first. */
  ghost function TwoStages(): Dag {
    var first := WithOutput(WithOutput(WithStage(EMPTY_DAG, 0, "a"), 0, 1, 0, "a.0"), 0, 1, 1, "a.1");
    WithOutput(WithStage(first, 1, "b"), 1, 1, 0, "b.0")
  }

  lemma TwoStagesFacts()
    ensures Growing(TwoStages()) && CanConnect(TwoStages(), 0, 1, 1)
    ensures Growing(Connected(TwoStages(), 0, 1, 1)) && SecondPortRead(Connected(TwoStages(), 0, 1, 1))
  {
    var a := WithStage(EMPTY_DAG, 0, "a");
    StageKeepsGrowing(EMPTY_DAG, 0, "a");
    OutputKeepsGrowing(a, 0, 1, 0, "a.0");
    var b := WithOutput(a, 0, 1, 0, "a.0");
    OutputKeepsGrowing(b, 0, 1, 1, "a.1");
    var c := WithOutput(b, 0, 1, 1, "a.1");
    StageKeepsGrowing(c, 1, "b");
    var e := WithStage(c, 1, "b");
    assert e.nodes[1].outputs == [];
    OutputKeepsGrowing(e, 1, 1, 0, "b.0");
    assert TwoStages() == WithOutput(e, 1, 1, 0, "b.0");
    ConnectKeepsGrowing(TwoStages(), 0, 1, 1);
  }

  method ConnectSecondPort() returns (dag: CompressionDAG)
    ensures fresh(dag) && !dag.isFinalized
    ensures Wired(dag.Contents()) && SecondPortRead(dag.Contents())
  {
    TwoStagesFacts();
    dag := new CompressionDAG(false);
    var a := dag.AddStage(0, "a");
    var x := dag.AddUnconnectedOutput(a, 1, 0, "a.0");
    x := dag.AddUnconnectedOutput(a, 1, 1, "a.1");
    var b := dag.AddStage(1, "b");
    x := dag.AddUnconnectedOutput(b, 1, 0, "b.0");
    assert dag.Contents() == TwoStages();
    var ok := dag.ConnectExistingOutput(a, b, 1);
  }

  lemma SecondPortIsStale(d: Dag, info: StageInfo)
    requires SecondPortRead(d) && (forall s :: info.numOutputs(s) == 1)
    ensures PortsInOrder(d) && HasPorts(d, info, |d.nodes|) && StalePortRead(d, info)
    ensures forall i, k :: IsNode(d, i) && 0 <= k < |d.nodes[i].outputs| ==> d.nodes[i].outputs[k] in d.buffers
  {
    forall i | IsNode(d, i) ensures NodePortsInOrder(d.nodes[i]) {
      assert i == 0 || i == 1;
    }
    assert DroppedPort(d, info, 0, 1) && !Unconsumed(d, d.nodes[0].outputs[1]);
  }

  /** What detection leaves of those two stages when each reports a single output. */
  lemma SecondPortGoes(d: Dag, info: StageInfo, e: Dag, outputs: seq<int>)
    requires SecondPortRead(d) && (forall s :: info.numOutputs(s) == 1)
    requires SomeDetected(d, info, e.nodes, e.buffers, outputs, |d.nodes|)
    ensures |e.nodes| == 2 && e.nodes[0].outputs == [0] && 1 in e.buffers && e.buffers[1].consumers == [1]
  {
    assert e.nodes[0] == Trimmed(d.nodes[0], 1) && [0, 1][..1] == [0];
    assert MarkedOutput(d.buffers[1], e.buffers[1], 1 in outputs);
  }

  /**
   * A two-output stage whose second output feeds another stage, and which then reports one output:
   * all edges agree before detection, and afterwards the port that stage reads is gone.
   */
  method ReadPortIsDropped() returns (ok: bool, dag: CompressionDAG, ghost before: Dag)
    ensures fresh(dag) && ok && Wired(before) && SecondPortRead(before)
    ensures |dag.nodes| == 2 && dag.nodes[0].outputs == [0] && 1 in dag.buffers && dag.buffers[1].consumers == [1]
    ensures !Wired(dag.Contents())
  {
    dag := ConnectSecondPort();
    before := dag.Contents();
    var info := StageInfo(s => "stage", (s, k) => "out", s => 1);
    SecondPortIsStale(before, info);
    var outputs;
    ok, outputs := AutoDetectUnconnectedOutputs(dag, info);
    SecondPortGoes(before, info, dag.Contents(), outputs);
    DroppingKeepsWiringIff(before, info, dag.Contents(), outputs);
  }

  lemma DroppedPortBreaksWiring(d: Dag, info: StageInfo, e: Dag, outputs: seq<int>, i: int, k: int)
    requires Wired(d) && SomeDetected(d, info, e.nodes, e.buffers, outputs, |d.nodes|)
    requires DroppedPort(d, info, i, k) && !Unconsumed(d, d.nodes[i].outputs[k])
    ensures !Wired(e)
  {
  }

  lemma KeptBufferWired(d: Dag, info: StageInfo, e: Dag, outputs: seq<int>, b: int)
    requires Wired(d) && SomeDetected(d, info, e.nodes, e.buffers, outputs, |d.nodes|)
    requires !StalePortRead(d, info) && b in e.buffers
    ensures BufferWired(e, b)
  {
  }

  // ---- the topology handed to the inverse builder ----

  function Flat(levels: seq<seq<int>>): seq<int> {
    if levels == [] then [] else Flat(levels[..|levels| - 1]) + levels[|levels| - 1]
  }

  function Describe(n: Node): FwdStage {
    FwdStage(n.stage, n.outputs, n.inputs)
  }

  ghost predicate Describes(fwd: seq<FwdStage>, nodes: seq<Node>, order: seq<int>) {
    && |fwd| == |order|
    && forall i :: 0 <= i < |fwd| ==> 0 <= order[i] < |nodes| && fwd[i] == Describe(nodes[order[i]])
  }

  lemma DescribesMore(fwd: seq<FwdStage>, nodes: seq<Node>, order: seq<int>, i: int)
    requires Describes(fwd, nodes, order) && 0 <= i < |nodes|
    ensures Describes(fwd + [Describe(nodes[i])], nodes, order + [i])
  {
  }

  /** fwd_topology: one description per node, level by level. */
  method CollectTopology(dag: CompressionDAG) returns (fwd: seq<FwdStage>)
    requires ListsLevels(dag.levels, dag.nodes, dag.maxLevel)
    ensures Describes(fwd, dag.nodes, Flat(dag.levels))
  {
    fwd := [];
    for l := 0 to |dag.levels|
      invariant Describes(fwd, dag.nodes, Flat(dag.levels[..l]))
    {
      var level := dag.levels[l];
      ghost var order := Flat(dag.levels[..l]);
      assert dag.levels[..l + 1][..l] == dag.levels[..l];
      for x := 0 to |level|
        invariant Describes(fwd, dag.nodes, order + level[..x])
      {
        assert level[x] in dag.levels[l] && OnLevel(dag.nodes, l, level[x]);
        DescribesMore(fwd, dag.nodes, order + level[..x], level[x]);
        assert order + level[..x + 1] == order + level[..x] + [level[x]];
        fwd := fwd + [Describe(dag.nodes[level[x]])];
      }
      assert level[..|level|] == level;
    }
    assert dag.levels[..|dag.levels|] == dag.levels;
  }

  /** Every node below level `count` once, lower levels first. */
  ghost predicate InLevelOrder(nodes: seq<Node>, order: seq<int>, count: int) {
    && (forall x :: 0 <= x < |order| ==> 0 <= order[x] < |nodes| && 0 <= nodes[order[x]].level < count)
    && (forall i :: 0 <= i < |nodes| && 0 <= nodes[i].level < count ==> i in order)
    && (forall x, y :: 0 <= x < y < |order| ==> order[x] != order[y] && nodes[order[x]].level <= nodes[order[y]].level)
  }

  lemma {:induction false} FlatIsInLevelOrder(levels: seq<seq<int>>, nodes: seq<Node>, maxLevel: int, count: nat)
    requires ListsLevels(levels, nodes, maxLevel) && ListedOnce(levels) && count <= |levels|
    ensures InLevelOrder(nodes, Flat(levels[..count]), count)
  {
    if count > 0 {
      var l := count - 1;
      FlatIsInLevelOrder(levels, nodes, maxLevel, l);
      assert levels[..count][..l] == levels[..l];
      var a, b := Flat(levels[..l]), levels[l];
      forall i | i in b ensures OnLevel(nodes, l, i) {
      }
      forall x | 0 <= x < |b| ensures OnLevel(nodes, l, b[x]) {
        assert b[x] in b;
      }
      forall i | 0 <= i < |nodes| && nodes[i].level == l ensures i in b {
        assert OnLevel(nodes, l, i);
      }
      forall x, y | 0 <= x < y < |a + b|
        ensures (a + b)[x] != (a + b)[y] && nodes[(a + b)[x]].level <= nodes[(a + b)[y]].level
      {
        if x >= |a| {
          var u, v := x - |a|, y - |a|;
          assert levels[l][u] < levels[l][v];
        }
      }
      assert Flat(levels[..count]) == a + b;
    }
  }

  /**
   * The topology of a leveled DAG with one node per stage is topological, and with every unread
   * output in the map the builder finds a source for every inverse input, provided each stage in
   * inverse mode has one output per forward input.
   */
  lemma TopologyIsWirable(d: Dag, fwd: seq<FwdStage>, levels: seq<seq<int>>, maxLevel: int, info: StageInfo,
                          po: map<int, Segment>)
    requires Sound(d) && (forall i :: IsNode(d, i) ==> d.nodes[i].level <= maxLevel)
    requires forall b :: b in d.buffers ==> b >= 0
    requires forall i, j :: 0 <= i < j < |d.nodes| ==> d.nodes[i].stage != d.nodes[j].stage
    requires ListsLevels(levels, d.nodes, maxLevel) && ListedOnce(levels) && Describes(fwd, d.nodes, Flat(levels))
    requires forall i :: IsNode(d, i) ==> info.numOutputs(d.nodes[i].stage) == |d.nodes[i].inputs|
    ensures DistinctStages(fwd) && Topological(fwd)
    ensures AllWirable(fwd, info, po, |fwd|) <==>
      forall i, k :: IsNode(d, i) && 0 <= k < |d.nodes[i].outputs| && Unconsumed(d, d.nodes[i].outputs[k]) ==>
          d.nodes[i].outputs[k] in po
  {
    var order := Flat(levels);
    FlatIsInLevelOrder(levels, d.nodes, maxLevel, |levels|);
    assert levels[..|levels|] == levels;
    forall i | IsNode(d, i) ensures i in order {
      assert NodeLeveled(d, i);
    }
    LevelOrderIsTopological(d, fwd, order, maxLevel + 1);
    forall i, k | 0 <= i < |fwd| && 0 <= k < |fwd[i].outputs|
      ensures Wirable(fwd, info, po, i, k) <==> (Unconsumed(d, fwd[i].outputs[k]) ==> fwd[i].outputs[k] in po)
    {
      OneOutputWirable(d, fwd, order, info, po, i, k);
    }
    NodesAreDescribed(d, fwd, order, po);
  }

  lemma LevelOrderIsTopological(d: Dag, fwd: seq<FwdStage>, order: seq<int>, count: int)
    requires Sound(d) && Describes(fwd, d.nodes, order) && InLevelOrder(d.nodes, order, count)
    requires forall i, j :: 0 <= i < j < |d.nodes| ==> d.nodes[i].stage != d.nodes[j].stage
    ensures DistinctStages(fwd) && Topological(fwd)
  {
  }

  lemma OneOutputWirable(d: Dag, fwd: seq<FwdStage>, order: seq<int>, info: StageInfo, po: map<int, Segment>, i: int,
                         k: int)
    requires Sound(d) && Describes(fwd, d.nodes, order) && (forall x :: IsNode(d, x) ==> x in order)
    requires forall b :: b in d.buffers ==> b >= 0
    requires forall x :: IsNode(d, x) ==> info.numOutputs(d.nodes[x].stage) == |d.nodes[x].inputs|
    requires 0 <= i < |fwd| && 0 <= k < |fwd[i].outputs|
    ensures fwd[i].outputs[k] in Consumers(fwd, |fwd|) <==> !Unconsumed(d, fwd[i].outputs[k])
    ensures Wirable(fwd, info, po, i, k) <==> (Unconsumed(d, fwd[i].outputs[k]) ==> fwd[i].outputs[k] in po)
  {
    var b := fwd[i].outputs[k];
    assert Made(d, order[i], k, d.nodes[order[i]].outputs[k]);
    ConsumersFacts(fwd, |fwd|, b);
    if b in Consumers(fwd, |fwd|) {
      var c := Consumers(fwd, |fwd|)[b];
      InputsReadable(d, order[c.0], c.1);
    }
    if !Unconsumed(d, b) {
      var c := d.buffers[b].consumers[0];
      assert BufferWired(d, b) && c in d.buffers[b].consumers;
      var m :| 0 <= m < |d.nodes[c].inputs| && d.nodes[c].inputs[m] == b;
      var j :| 0 <= j < |order| && order[j] == c;
      assert Reads(fwd, j, m, b);
    }
  }

  lemma NodesAreDescribed(d: Dag, fwd: seq<FwdStage>, order: seq<int>, po: map<int, Segment>)
    requires Describes(fwd, d.nodes, order) && (forall x :: IsNode(d, x) ==> x in order)
    ensures (forall i, k :: 0 <= i < |fwd| && 0 <= k < |fwd[i].outputs| ==> (Unconsumed(d, fwd[i].outputs[k]) ==>
        fwd[i].outputs[k] in po))
      <==> (forall i, k :: IsNode(d, i) && 0 <= k < |d.nodes[i].outputs| && Unconsumed(d, d.nodes[i].outputs[k]) ==>
          d.nodes[i].outputs[k] in po)
  {
  }

  // ---- a single pipeline output ----

  lemma {:induction false} HighestNode(d: Dag, count: nat) returns (top: int)
    requires 0 < count <= |d.nodes|
    ensures IsNode(d, top) && forall i :: 0 <= i < count ==> d.nodes[i].level <= d.nodes[top].level
  {
    if count == 1 {
      top := 0;
    } else {
      top := HighestNode(d, count - 1);
      if d.nodes[top].level < d.nodes[count - 1].level {
        top := count - 1;
      }
    }
  }

  lemma ReaderIsHigher(d: Dag, b: int)
    requires Sound(d) && Written(d, b) && d.buffers[b].consumers != []
    ensures exists c :: IsNode(d, c) && d.nodes[d.buffers[b].producer].level < d.nodes[c].level
  {
    var c := d.buffers[b].consumers[0];
    assert BufferWired(d, b) && c in d.buffers[b].consumers;
    var m :| 0 <= m < |d.nodes[c].inputs| && d.nodes[c].inputs[m] == b;
    InputsReadable(d, c, m);
  }

  /**
   * Without concatenation compress() reports the size of the producer's first output
   * (src/pipeline/compressor_exec.cpp:186-194): right, because a lone pipeline output is always
   * port 0 of its stage when every stage has an output.
   */
  lemma LoneOutputIsPortZero(d: Dag, info: StageInfo, b: int)
    requires Sound(d) && HasPorts(d, info, |d.nodes|) && |d.nodes| > 0
    requires forall i :: IsNode(d, i) ==> info.numOutputs(d.nodes[i].stage) >= 1
    requires PipelineOutputs(d, info, |d.nodes|) == [b]
    ensures Written(d, b) && d.nodes[d.buffers[b].producer].outputs[0] == b && d.buffers[b].port == 0
  {
    var top := HighestNode(d, |d.nodes|);
    var first := d.nodes[top].outputs[0];
    assert Made(d, top, 0, d.nodes[top].outputs[0]);
    if d.buffers[first].consumers != [] {
      ReaderIsHigher(d, first);
    }
    OutputsAreOpenPorts(d, info, |d.nodes|);
    assert IsOpen(d, info, top, 0);
    assert first in PipelineOutputs(d, info, |d.nodes|);
  }
}
