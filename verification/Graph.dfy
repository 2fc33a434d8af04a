/**
 * The wiring of a CompressionDAG (include/advanced/dag.h:37-90, src/pipeline/dag.cpp:80-247) as a
 * value, the edits the builder makes to it, and the meaning of a DAG: the value every buffer should hold.
 */
module Graph {
  import opened Values

  datatype BufferInfo = BufferInfo(
    size: nat, initialSize: nat, allocatedSize: nat, ptr: int, tag: string,
    consumers: seq<int>, producer: int, port: int,
    isAllocated: bool, isPersistent: bool, isExternal: bool)

  /** A node's id is its position in `nodes`, as in addStage(). */
  datatype Node = Node(
    stage: int, name: string, inputs: seq<int>, outputs: seq<int>, ports: map<int, int>,
    deps: seq<int>, dependents: seq<int>, level: int, stream: int)

  datatype Dag = Dag(nodes: seq<Node>, buffers: map<int, BufferInfo>, nextBuffer: nat)

  const EMPTY_DAG := Dag([], map[], 0)

  // ---- edits (src/pipeline/dag.cpp:80-261, 750-788) ----

  function NewBuffer(size: nat, tag: string, producer: int, port: int, consumers: seq<int>,
                     isExternal: bool): BufferInfo {
    BufferInfo(size, size, 0, 0, tag, consumers, producer, port, false, isExternal, isExternal)
  }

  /** addStage(): a node with no ports yet; level -1 until assignLevels(). */
  function WithStage(d: Dag, stage: int, name: string): Dag {
    d.(nodes := d.nodes + [Node(stage, name, [], [], map[], [], [], -1, 0)])
  }

  /** addUnconnectedOutput(): a fresh buffer on the node's next output position. */
  function WithOutput(d: Dag, i: int, size: nat, port: int, tag: string): Dag
    requires 0 <= i < |d.nodes|
  {
    var b := d.nextBuffer;
    var n := d.nodes[i];
    Dag(d.nodes[i := n.(outputs := n.outputs + [b], ports := n.ports[port := b])],
        d.buffers[b := NewBuffer(size, tag, i, port, [], false)], b + 1)
  }

  /** setInputBuffer(): a caller-owned buffer on the node's next input position. */
  function WithInput(d: Dag, i: int, size: nat, tag: string): Dag
    requires 0 <= i < |d.nodes|
  {
    var b := d.nextBuffer;
    var n := d.nodes[i];
    Dag(d.nodes[i := n.(inputs := n.inputs + [b])],
        d.buffers[b := NewBuffer(size, tag, -1, 0, [i], true)], b + 1)
  }

  predicate CanConnect(d: Dag, p: int, c: int, port: int) {
    && 0 <= p < |d.nodes| && 0 <= c < |d.nodes|
    && port in d.nodes[p].ports && d.nodes[p].ports[port] in d.buffers
  }

  /** connectExistingOutput(): output `port` of `p` becomes the next input of `c`. */
  function Connected(d: Dag, p: int, c: int, port: int): Dag
    requires CanConnect(d, p, c, port)
  {
    var b := d.nodes[p].ports[port];
    var buf := d.buffers[b];
    var withInput := d.nodes[c := d.nodes[c].(inputs := d.nodes[c].inputs + [b], deps := d.nodes[c].deps + [p])];
    Dag(withInput[p := withInput[p].(dependents := withInput[p].dependents + [c])],
        d.buffers[b := buf.(consumers := buf.consumers + [c], tag := d.nodes[p].name + "_to_" +
            d.nodes[c].name, isPersistent := false)],
        d.nextBuffer)
  }

  function WithPointer(d: Dag, b: int, ptr: int): Dag
    requires b in d.buffers
  {
    d.(buffers := d.buffers[b := d.buffers[b].(ptr := ptr, isExternal := true, isAllocated := true)])
  }

  function WithSize(d: Dag, b: int, size: nat): Dag
    requires b in d.buffers
  {
    d.(buffers := d.buffers[b := d.buffers[b].(size := size, initialSize := size)])
  }

  function WithPersistent(d: Dag, b: int, persistent: bool): Dag
    requires b in d.buffers
  {
    d.(buffers := d.buffers[b := d.buffers[b].(isPersistent := persistent)])
  }

  /** Two records of one buffer describe the same edge. */
  predicate SameEdge(a: BufferInfo, b: BufferInfo) {
    b.producer == a.producer && b.port == a.port && b.consumers == a.consumers && b.tag == a.tag
  }

  /** No run has changed a size since it was planned. */
  ghost predicate AtPlannedSizes(d: Dag) {
    forall b :: b in d.buffers ==> d.buffers[b].size == d.buffers[b].initialSize
  }

  function DepsOf(d: Dag): (r: seq<seq<int>>)
    ensures |r| == |d.nodes| && forall i :: 0 <= i < |r| ==> r[i] == d.nodes[i].deps
  {
    seq(|d.nodes|, i requires 0 <= i < |d.nodes| => d.nodes[i].deps)
  }

  // ---- well-formed wiring ----

  ghost predicate IsNode(d: Dag, i: int) {
    0 <= i < |d.nodes|
  }

  /** The edges recorded on nodes and on buffers agree with each other. */
  ghost predicate Wired(d: Dag) {
    && (forall i, k :: IsNode(d, i) && 0 <= k < |d.nodes[i].inputs| ==> Fed(d, i, d.nodes[i].inputs[k]))
    && (forall i, k :: IsNode(d, i) && 0 <= k < |d.nodes[i].outputs| ==> Made(d, i, k, d.nodes[i].outputs[k]))
    && (forall b :: b in d.buffers ==> BufferWired(d, b))
  }

  /** `b` is an input of node `i`. */
  ghost predicate Fed(d: Dag, i: int, b: int)
    requires IsNode(d, i)
  {
    && b in d.buffers
    && i in d.buffers[b].consumers
    && d.buffers[b].producer < |d.nodes|
    && (d.buffers[b].producer >= 0 ==>
          && d.buffers[b].producer in d.nodes[i].deps
          && i in d.nodes[d.buffers[b].producer].dependents)
  }

  /** `b` is what node `i` writes at output port `k`. */
  ghost predicate Made(d: Dag, i: int, k: int, b: int) {
    && b in d.buffers
    && d.buffers[b].producer == i
    && d.buffers[b].port == k
  }

  ghost predicate BufferWired(d: Dag, b: int)
    requires b in d.buffers
  {
    var buf := d.buffers[b];
    && (forall c :: c in buf.consumers ==> IsNode(d, c) && b in d.nodes[c].inputs)
    && buf.producer < |d.nodes|
    && (buf.producer >= 0 && buf.consumers != [] ==> b in d.nodes[buf.producer].outputs)
  }

  /** Every dependency sits on a strictly lower level. */
  ghost predicate Leveled(d: Dag) {
    forall i :: IsNode(d, i) ==> NodeLeveled(d, i)
  }

  ghost predicate NodeLeveled(d: Dag, i: int)
    requires IsNode(d, i)
  {
    && d.nodes[i].level >= 0
    && forall p :: p in d.nodes[i].deps ==> IsNode(d, p) && 0 <= d.nodes[p].level < d.nodes[i].level
  }

  ghost predicate Sound(d: Dag) {
    Wired(d) && Leveled(d)
  }

  /** `b` is supplied from outside or written by one of the nodes. */
  ghost predicate Readable(d: Dag, b: int) {
    b in d.buffers && (d.buffers[b].producer >= 0 ==> Written(d, b))
  }

  ghost predicate Written(d: Dag, b: int) {
    && b in d.buffers
    && IsNode(d, d.buffers[b].producer)
    && b in d.nodes[d.buffers[b].producer].outputs
  }

  lemma InputsReadable(d: Dag, i: int, k: int)
    requires Sound(d) && IsNode(d, i) && 0 <= k < |d.nodes[i].inputs|
    ensures var b := d.nodes[i].inputs[k];
      && Readable(d, b)
      && i in d.buffers[b].consumers
      && (d.buffers[b].producer >= 0 ==>
            && 0 <= d.nodes[d.buffers[b].producer].level < d.nodes[i].level
            && d.buffers[b].producer in d.nodes[i].deps
            && i in d.nodes[d.buffers[b].producer].dependents)
  {
  }

  ghost function Rank(d: Dag, b: int): nat
    requires Sound(d) && Readable(d, b)
  {
    var p := d.buffers[b].producer;
    if p < 0 then 0 else assert NodeLeveled(d, p); 2 * d.nodes[p].level + 2
  }

  /**
   * The value buffer `b` stands for: what its producer computes from the values of its inputs,
   * down to the external inputs. No memory, order or placement is involved.
   */
  ghost function ValueOf(d: Dag, sem: StageSem, ext: int -> Value, b: int): Value
    requires Sound(d) && Readable(d, b)
    decreases Rank(d, b)
  {
    var p := d.buffers[b].producer;
    if p < 0 then ext(b)
    else
      assert NodeLeveled(d, p);
      sem(d.nodes[p].stage, InputValues(d, sem, ext, p), d.buffers[b].port)
  }

  ghost function InputValues(d: Dag, sem: StageSem, ext: int -> Value, i: int): (r: seq<Value>)
    requires Sound(d) && IsNode(d, i)
    ensures |r| == |d.nodes[i].inputs|
    ensures forall k :: 0 <= k < |r| ==>
      Readable(d, d.nodes[i].inputs[k]) && r[k] == ValueOf(d, sem, ext, d.nodes[i].inputs[k])
    decreases assert NodeLeveled(d, i); 2 * d.nodes[i].level + 1
  {
    assert NodeLeveled(d, i);
    seq(|d.nodes[i].inputs|, k requires 0 <= k < |d.nodes[i].inputs| =>
      InputsReadable(d, i, k);
      ValueOf(d, sem, ext, d.nodes[i].inputs[k]))
  }
}
