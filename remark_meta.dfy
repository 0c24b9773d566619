/** The remark plugin that keeps a fenced code block's meta string
    (lib/remark-preserve-meta.ts). The visitor writes into the nodes of the
    markdown tree in place; the tree is given by the list of its nodes in the
    order the traversal reaches them. */
module RemarkPreserveMeta {
  import opened Text

  /** The attribute the meta string is stored under. */
  const DataMeta: string := "data-meta"

  /** The `hProperties` a node ends with: a `code` node with a non-empty meta
      string gets it under `data-meta`, in its existing `hProperties` or in a
      new empty one; any other node keeps what it had. */
  function PreservedProperties(kind: string, meta: Option<string>, props: Option<map<string, string>>): (r: Option<map<string, string>>)
    ensures kind == "code" && Truthy(meta) ==>
              && r.Some? && DataMeta in r.value && r.value[DataMeta] == meta.value
              && r.value.Keys == (if props.Some? then props.value.Keys else {}) + {DataMeta}
              && (forall k :: props.Some? && k in props.value && k != DataMeta ==> r.value[k] == props.value[k])
    ensures !(kind == "code" && Truthy(meta)) ==> r == props
  {
    if kind == "code" && Truthy(meta) then
      var base := if props.Some? then props.value else map[];
      Some(base[DataMeta := meta.value])
    else props
  }

  /** Applying the rule to its own result changes nothing. */
  lemma PreservedPropertiesIdempotent(kind: string, meta: Option<string>, props: Option<map<string, string>>)
    ensures PreservedProperties(kind, meta, PreservedProperties(kind, meta, props)) == PreservedProperties(kind, meta, props)
  {
    if kind == "code" && Truthy(meta) {
      var r := PreservedProperties(kind, meta, props).value;
      assert r[DataMeta := meta.value] == r;
    }
  }

  /** A markdown node as the plugin sees it. */
  class MdastNode {
    var kind: string
    var meta: Option<string>
    var hProperties: Option<map<string, string>>
    var children: seq<MdastNode>

    constructor(kind: string, meta: Option<string>, hProperties: Option<map<string, string>>, children: seq<MdastNode>)
      ensures this.kind == kind && this.meta == meta && this.hProperties == hProperties && this.children == children
    {
      this.kind := kind;
      this.meta := meta;
      this.hProperties := hProperties;
      this.children := children;
    }

    /** The visitor: only `hProperties` changes. */
    method Visit()
      modifies this
      ensures hProperties == PreservedProperties(kind, meta, old(hProperties))
      ensures kind == old(kind) && meta == old(meta) && children == old(children)
    {
      if kind == "code" && Truthy(meta) {
        if hProperties.None? {
          hProperties := Some(map[]);
        }
        hProperties := Some(hProperties.value[DataMeta := meta.value]);
      }
    }
  }

  /** The transformer: visits every node. Each node ends with the
      `hProperties` the rule gives for its original fields, however often it
      is reached; types, meta strings and children are unchanged. */
  method Transform(nodes: seq<MdastNode>)
    modifies set n | n in nodes
    ensures forall n :: n in nodes ==>
              && n.hProperties == PreservedProperties(old(n.kind), old(n.meta), old(n.hProperties))
              && n.kind == old(n.kind) && n.meta == old(n.meta) && n.children == old(n.children)
  {
    for i := 0 to |nodes|
      invariant forall n :: n in nodes ==> n.kind == old(n.kind) && n.meta == old(n.meta) && n.children == old(n.children)
      invariant forall n :: n in nodes[..i] ==> n.hProperties == PreservedProperties(old(n.kind), old(n.meta), old(n.hProperties))
      invariant forall n :: n in nodes && n !in nodes[..i] ==> n.hProperties == old(n.hProperties)
    {
      var node := nodes[i];
      PreservedPropertiesIdempotent(node.kind, node.meta, old(node.hProperties));
      node.Visit();
      assert nodes[..i + 1] == nodes[..i] + [node];
    }
    assert nodes[..|nodes|] == nodes;
  }
}
