/**
 * What every construction step of a DAG keeps (src/pipeline/dag.cpp:80-247): the edges recorded on
 * nodes and on buffers stay in agreement, new ids are fresh, and nothing already wired changes.
 */
module Building {
  import opened Graph
  import opened Levels

  /** A DAG under construction. */
  ghost predicate Growing(d: Dag) {
    && Wired(d)
    && (forall b :: b in d.buffers ==> 0 <= b < d.nextBuffer)
    && (forall b :: b in d.buffers ==> (d.buffers[b].isExternal <==> d.buffers[b].producer < 0))
    && (forall i :: IsNode(d, i) ==> PortsListed(d.nodes[i]))
    && (forall p, c :: IsNode(d, p) && c in d.nodes[p].dependents ==> DependsOn(d, c, p))
  }

  ghost predicate DependsOn(d: Dag, c: int, p: int) {
    IsNode(d, c) && p in d.nodes[c].deps
  }

  ghost predicate PortsListed(n: Node) {
    forall k :: k in n.ports ==> n.ports[k] in n.outputs
  }

  /** setInputBuffer() followed by setExternalPointer() on the new buffer. */
  function Injected(d: Dag, i: int, size: nat, tag: string, ptr: int): Dag
    requires 0 <= i < |d.nodes|
  {
    WithPointer(WithInput(d, i, size, tag), d.nextBuffer, ptr)
  }

  lemma StageKeepsGrowing(d: Dag, stage: int, name: string)
    requires Growing(d)
    ensures Growing(WithStage(d, stage, name))
  {
    var e := WithStage(d, stage, name);
    forall i, k | IsNode(e, i) && 0 <= k < |e.nodes[i].inputs| ensures Fed(e, i, e.nodes[i].inputs[k]) {
      assert Fed(d, i, d.nodes[i].inputs[k]);
    }
    forall i, k | IsNode(e, i) && 0 <= k < |e.nodes[i].outputs| ensures Made(e, i, k, e.nodes[i].outputs[k]) {
      assert Made(d, i, k, d.nodes[i].outputs[k]);
    }
    forall b | b in e.buffers ensures BufferWired(e, b) {
      assert BufferWired(d, b);
    }
    forall p, c | IsNode(e, p) && c in e.nodes[p].dependents ensures DependsOn(e, c, p) {
      assert DependsOn(d, c, p);
    }
  }

  lemma OutputKeepsGrowing(d: Dag, i: int, size: nat, port: int, tag: string)
    requires Growing(d) && IsNode(d, i) && port == |d.nodes[i].outputs|
    ensures Growing(WithOutput(d, i, size, port, tag))
  {
    var e := WithOutput(d, i, size, port, tag);
    forall x, k | IsNode(e, x) && 0 <= k < |e.nodes[x].inputs| ensures Fed(e, x, e.nodes[x].inputs[k]) {
      assert Fed(d, x, d.nodes[x].inputs[k]);
    }
    forall x, k | IsNode(e, x) && 0 <= k < |e.nodes[x].outputs| ensures Made(e, x, k, e.nodes[x].outputs[k]) {
      if x != i || k < |d.nodes[i].outputs| {
        assert Made(d, x, k, d.nodes[x].outputs[k]);
      }
    }
    forall b | b in e.buffers ensures BufferWired(e, b) {
      if b in d.buffers {
        assert BufferWired(d, b);
      }
    }
    forall p, c | IsNode(e, p) && c in e.nodes[p].dependents ensures DependsOn(e, c, p) {
      assert DependsOn(d, c, p);
    }
  }

  lemma InjectKeepsGrowing(d: Dag, i: int, size: nat, tag: string, ptr: int)
    requires Growing(d) && IsNode(d, i)
    ensures Growing(Injected(d, i, size, tag, ptr))
  {
    var e := Injected(d, i, size, tag, ptr);
    forall x, k | IsNode(e, x) && 0 <= k < |e.nodes[x].inputs| ensures Fed(e, x, e.nodes[x].inputs[k]) {
      if x != i || k < |d.nodes[i].inputs| {
        assert Fed(d, x, d.nodes[x].inputs[k]);
      }
    }
    forall x, k | IsNode(e, x) && 0 <= k < |e.nodes[x].outputs| ensures Made(e, x, k, e.nodes[x].outputs[k]) {
      assert Made(d, x, k, d.nodes[x].outputs[k]);
    }
    forall b | b in e.buffers ensures BufferWired(e, b) {
      if b in d.buffers {
        assert BufferWired(d, b);
      } else {
        assert e.nodes[i].inputs[|d.nodes[i].inputs|] == b;
      }
    }
    forall p, c | IsNode(e, p) && c in e.nodes[p].dependents ensures DependsOn(e, c, p) {
      assert DependsOn(d, c, p);
    }
  }

  lemma ConnectKeepsGrowing(d: Dag, p: int, c: int, port: int)
    requires Growing(d) && CanConnect(d, p, c, port)
    ensures Growing(Connected(d, p, c, port))
  {
    var e, b := Connected(d, p, c, port), d.nodes[p].ports[port];
    assert PortsListed(d.nodes[p]);
    var o :| 0 <= o < |d.nodes[p].outputs| && d.nodes[p].outputs[o] == b;
    assert Made(d, p, o, b);
    forall x, k | IsNode(e, x) && 0 <= k < |e.nodes[x].inputs| ensures Fed(e, x, e.nodes[x].inputs[k]) {
      ConnectKeepsFed(d, p, c, port, x, k);
    }
    forall x, k | IsNode(e, x) && 0 <= k < |e.nodes[x].outputs| ensures Made(e, x, k, e.nodes[x].outputs[k]) {
      assert Made(d, x, k, d.nodes[x].outputs[k]);
    }
    ConnectKeepsBuffers(d, p, c, port);
    forall i | IsNode(e, i) ensures PortsListed(e.nodes[i]) {
      assert PortsListed(d.nodes[i]);
    }
    ConnectKeepsDependents(d, p, c, port);
  }

  lemma ConnectKeepsBuffers(d: Dag, p: int, c: int, port: int)
    requires Growing(d) && CanConnect(d, p, c, port) && d.nodes[p].ports[port] in d.nodes[p].outputs
    requires d.buffers[d.nodes[p].ports[port]].producer == p
    ensures forall y :: y in Connected(d, p, c, port).buffers ==> BufferWired(Connected(d, p, c, port), y)
  {
    var e, b := Connected(d, p, c, port), d.nodes[p].ports[port];
    assert e.nodes[c].inputs == d.nodes[c].inputs + [b];
    forall y | y in e.buffers ensures BufferWired(e, y) {
      assert BufferWired(d, y);
      forall x | IsNode(d, x) && y in d.nodes[x].inputs ensures y in e.nodes[x].inputs {
        assert d.nodes[x].inputs <= e.nodes[x].inputs;
      }
    }
  }

  lemma ConnectKeepsDependents(d: Dag, p: int, c: int, port: int)
    requires Growing(d) && CanConnect(d, p, c, port)
    ensures var e := Connected(d, p, c, port);
      forall q, x :: IsNode(e, q) && x in e.nodes[q].dependents ==> DependsOn(e, x, q)
  {
  }

  lemma ConnectKeepsFed(d: Dag, p: int, c: int, port: int, x: int, k: int)
    requires Growing(d) && CanConnect(d, p, c, port)
    requires d.buffers[d.nodes[p].ports[port]].producer == p
    requires IsNode(d, x) && 0 <= k < |Connected(d, p, c, port).nodes[x].inputs|
    ensures Fed(Connected(d, p, c, port), x, Connected(d, p, c, port).nodes[x].inputs[k])
  {
    var e, b := Connected(d, p, c, port), d.nodes[p].ports[port];
    if x == c && k == |d.nodes[c].inputs| {
      assert e.nodes[c].inputs[k] == b && e.buffers[b].consumers[|d.buffers[b].consumers|] == c;
      assert e.nodes[c].deps[|d.nodes[c].deps|] == p && e.nodes[p].dependents[|d.nodes[p].dependents|] == c;
    } else {
      var y := d.nodes[x].inputs[k];
      assert Fed(d, x, y);
      assert d.buffers[y].consumers <= e.buffers[y].consumers && d.nodes[x].deps <= e.nodes[x].deps;
      var q := d.buffers[y].producer;
      assert q >= 0 ==> d.nodes[q].dependents <= e.nodes[q].dependents;
    }
  }

  // ---- later edits only add ----

  ghost predicate NodeExtends(a: Node, b: Node) {
    && b.stage == a.stage && b.name == a.name && b.outputs == a.outputs && b.ports == a.ports && b.level == a.level
    && a.inputs <= b.inputs && a.deps <= b.deps && a.dependents <= b.dependents
  }

  ghost predicate BufferExtends(a: BufferInfo, b: BufferInfo) {
    && b.producer == a.producer && b.port == a.port && b.isExternal == a.isExternal
    && a.consumers <= b.consumers
    && (a.isExternal ==> b == a)
  }

  /** `e` is `d` after more wiring. */
  ghost predicate Extends(d: Dag, e: Dag) {
    && |e.nodes| == |d.nodes|
    && (forall i :: IsNode(d, i) ==> NodeExtends(d.nodes[i], e.nodes[i]))
    && (forall b :: b in d.buffers ==> b in e.buffers && BufferExtends(d.buffers[b], e.buffers[b]))
  }

  lemma InjectExtends(d: Dag, i: int, size: nat, tag: string, ptr: int)
    requires Growing(d) && IsNode(d, i)
    ensures Extends(d, Injected(d, i, size, tag, ptr))
  {
  }

  lemma ConnectExtends(d: Dag, p: int, c: int, port: int)
    requires Growing(d) && CanConnect(d, p, c, port) && !d.buffers[d.nodes[p].ports[port]].isExternal
    ensures Extends(d, Connected(d, p, c, port))
  {
  }

  // ---- finalize() ----

  /** assignLevels() on a DAG. */
  ghost function Finalized(d: Dag): Dag
    requires ValidDeps(DepsOf(d))
  {
    d.(nodes := seq(|d.nodes|, i requires 0 <= i < |d.nodes| => d.nodes[i].(level := InsertionLevel(DepsOf(d), i))))
  }

  /** `e` is `d` after finalize(): levels and streams are set, nothing else changes. */
  ghost predicate FinalizedAs(d: Dag, e: Dag)
    requires ValidDeps(DepsOf(d))
  {
    && |e.nodes| == |d.nodes| && e.buffers == d.buffers
    && forall i :: IsNode(d, i) ==>
        e.nodes[i] == d.nodes[i].(level := InsertionLevel(DepsOf(d), i), stream := e.nodes[i].stream)
  }

  /** Levels and streams are no part of the wiring. */
  lemma FinalizedIsWired(d: Dag, e: Dag)
    requires Wired(d) && ValidDeps(DepsOf(d)) && FinalizedAs(d, e)
    ensures Wired(e)
  {
    forall i, k | IsNode(e, i) && 0 <= k < |e.nodes[i].inputs| ensures Fed(e, i, e.nodes[i].inputs[k]) {
      assert Fed(d, i, d.nodes[i].inputs[k]);
    }
    forall i, k | IsNode(e, i) && 0 <= k < |e.nodes[i].outputs| ensures Made(e, i, k, e.nodes[i].outputs[k]) {
      assert Made(d, i, k, d.nodes[i].outputs[k]);
    }
    forall b | b in e.buffers ensures BufferWired(e, b) {
      assert BufferWired(d, b);
    }
  }

  /** A wired DAG can be run once finalize() has leveled it if and only if its levels climb along every edge. */
  lemma FinalizedSoundIff(d: Dag, e: Dag)
    requires Wired(d) && ValidDeps(DepsOf(d)) && FinalizedAs(d, e)
    ensures Sound(e) <==> LevelsClimb(DepsOf(d))
  {
    var deps := DepsOf(d);
    FinalizedIsWired(d, e);
    if LevelsClimb(deps) {
      forall i | IsNode(e, i) ensures NodeLeveled(e, i) {
        MaxAssignedIsMax(deps, i, |deps[i]|);
        forall p | p in e.nodes[i].deps ensures IsNode(e, p) && 0 <= e.nodes[p].level < e.nodes[i].level {
          var k :| 0 <= k < |deps[i]| && deps[i][k] == p;
          MaxAssignedIsMax(deps, p, |deps[p]|);
          assert EdgeClimbs(deps, i, k);
        }
      }
    }
    if Sound(e) {
      forall i, k | 0 <= i < |deps| && 0 <= k < |deps[i]| ensures EdgeClimbs(deps, i, k) {
        assert NodeLeveled(e, i) && deps[i][k] in e.nodes[i].deps;
      }
    }
  }

  /**
   * On the forward side: an acyclic wired DAG can be run after finalize() if and only if every stage
   * with dependencies was added after one of its deepest ones.
   */
  lemma AcyclicSoundIff(d: Dag, e: Dag, rank: seq<nat>)
    requires Wired(d) && Acyclic(DepsOf(d), rank) && FinalizedAs(d, e)
    ensures Sound(e) <==> forall i :: IsNode(d, i) ==> DeepestIsEarlier(DepsOf(d), rank, i)
  {
    FinalizedSoundIff(d, e);
    LevelsClimbIff(DepsOf(d), rank);
  }
}
