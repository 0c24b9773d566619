/** The rehype plugin that carries a code element's meta string up to its
    `pre` element (lib/rehype-preserve-meta.ts). The visitor writes into the
    `pre` nodes of the HTML tree in place; the tree is given by the list of
    its nodes in the order the traversal reaches them. */
module RehypePreserveMeta {
  import opened Text

  const DataMeta: string := "data-meta"
  const Meta: string := "meta"

  /** The fields of an HTML node the plugin reads or writes. `data` and
      `properties` are string maps; `None` is a missing object. */
  datatype Fields = Fields(kind: string, tagName: Option<string>, properties: Option<map<string, string>>, data: Option<map<string, string>>)

  /** A string-valued key of an optional map that JavaScript treats as true. */
  predicate HasTruthy(m: Option<map<string, string>>, key: string) {
    m.Some? && key in m.value && m.value[key] != ""
  }

  /** `m[key] = v`, creating the map when it is missing. */
  function Put(m: Option<map<string, string>>, key: string, v: string): (r: map<string, string>)
    ensures key in r && r[key] == v
    ensures r.Keys == (if m.Some? then m.value.Keys else {}) + {key}
    ensures forall k :: m.Some? && k in m.value && k != key ==> r[k] == m.value[k]
  {
    (if m.Some? then m.value else map[])[key := v]
  }

  /** The visitor applies to a `pre` element whose first child is an element with tag `code`. */
  predicate IsPreWithCode(node: Fields, firstChild: Option<Fields>) {
    node.kind == "element" && node.tagName == Some("pre") && firstChild.Some? && firstChild.value.tagName == Some("code")
  }

  /** The fields a node ends with, given its first child's fields: for a `pre`
      with a `code` first child, a non-empty `data.meta` of the child is
      copied to the `pre`'s `data.meta` and a non-empty `data-meta` property to
      its `data-meta` property; everything else stays as it was. */
  function Rewrite(node: Fields, firstChild: Option<Fields>): (r: Fields)
    ensures r.kind == node.kind && r.tagName == node.tagName
    ensures !IsPreWithCode(node, firstChild) ==> r == node
    ensures IsPreWithCode(node, firstChild) ==>
              var code := firstChild.value;
              && (HasTruthy(code.data, Meta) ==> r.data == Some(Put(node.data, Meta, code.data.value[Meta])))
              && (!HasTruthy(code.data, Meta) ==> r.data == node.data)
              && (HasTruthy(code.properties, DataMeta) ==> r.properties == Some(Put(node.properties, DataMeta, code.properties.value[DataMeta])))
              && (!HasTruthy(code.properties, DataMeta) ==> r.properties == node.properties)
  {
    if !IsPreWithCode(node, firstChild) then node
    else
      var code := firstChild.value;
      var data := if HasTruthy(code.data, Meta) then Some(Put(node.data, Meta, code.data.value[Meta])) else node.data;
      var properties := if HasTruthy(code.properties, DataMeta) then Some(Put(node.properties, DataMeta, code.properties.value[DataMeta])) else node.properties;
      node.(data := data, properties := properties)
  }

  /** Rewriting a rewritten node with the same first child changes nothing. */
  lemma RewriteIdempotent(node: Fields, firstChild: Option<Fields>)
    ensures Rewrite(Rewrite(node, firstChild), firstChild) == Rewrite(node, firstChild)
  {
    var r := Rewrite(node, firstChild);
    if IsPreWithCode(node, firstChild) {
      var code := firstChild.value;
      if HasTruthy(code.data, Meta) {
        assert r.data.value[Meta := code.data.value[Meta]] == r.data.value;
      }
      if HasTruthy(code.properties, DataMeta) {
        assert r.properties.value[DataMeta := code.properties.value[DataMeta]] == r.properties.value;
      }
    }
  }

  /** The rewrite reads the first child's maps only when it is a `code` element. */
  lemma RewriteReadsCodeChildOnly(node: Fields, c1: Fields, c2: Fields)
    requires c1.tagName == c2.tagName
    requires c1.tagName == Some("code") ==> c1.data == c2.data && c1.properties == c2.properties
    ensures Rewrite(node, Some(c1)) == Rewrite(node, Some(c2))
  {
  }

  /** An HTML node as the plugin sees it. */
  class HastNode {
    var kind: string
    var tagName: Option<string>
    var properties: Option<map<string, string>>
    var data: Option<map<string, string>>
    var children: seq<HastNode>

    constructor(kind: string, tagName: Option<string>, properties: Option<map<string, string>>, data: Option<map<string, string>>, children: seq<HastNode>)
      ensures Snapshot() == Fields(kind, tagName, properties, data) && this.children == children
    {
      this.kind := kind;
      this.tagName := tagName;
      this.properties := properties;
      this.data := data;
      this.children := children;
    }

    function Snapshot(): Fields
      reads this
    {
      Fields(kind, tagName, properties, data)
    }

    /** The fields of `node.children?.[0]`. */
    function FirstChildFields(): Option<Fields>
      reads this, FirstChildSet()
    {
      if |children| > 0 then Some(children[0].Snapshot()) else None
    }

    function FirstChildSet(): set<HastNode>
      reads this
    {
      if |children| > 0 then {children[0]} else {}
    }

    /** The visitor: a `pre` element takes over its `code` child's meta string;
        only this node changes, and its children stay the same. */
    method Visit()
      modifies this
      ensures Snapshot() == Rewrite(old(Snapshot()), old(FirstChildFields()))
      ensures children == old(children)
    {
      if kind == "element" && tagName == Some("pre") && |children| > 0 {
        var code := children[0];
        if code.tagName == Some("code") {
          if HasTruthy(code.data, Meta) {
            data := Some(Put(data, Meta, code.data.value[Meta]));
          }
          if HasTruthy(code.properties, DataMeta) {
            properties := Some(Put(properties, DataMeta, code.properties.value[DataMeta]));
          }
        }
      }
    }
  }

  /** The transformer: visits every node. Each node ends with the fields the
      rule gives for its original fields and its first child's original
      fields, however often it is reached; children lists, and every node
      that is not a `pre` element, are unchanged. */
  method Transform(nodes: seq<HastNode>)
    modifies set n | n in nodes
    ensures forall n :: n in nodes ==>
              && n.Snapshot() == Rewrite(old(n.Snapshot()), old(n.FirstChildFields()))
              && n.children == old(n.children)
  {
    for i := 0 to |nodes|
      invariant forall n :: n in nodes ==>
                  && n.kind == old(n.kind) && n.tagName == old(n.tagName) && n.children == old(n.children)
                  && (n.tagName != Some("pre") ==> n.data == old(n.data) && n.properties == old(n.properties))
      invariant forall n :: n in nodes[..i] ==> n.Snapshot() == Rewrite(old(n.Snapshot()), old(n.FirstChildFields()))
      invariant forall n :: n in nodes && n !in nodes[..i] ==> n.Snapshot() == old(n.Snapshot())
    {
      var node := nodes[i];
      if |node.children| > 0 {
        var c := node.children[0];
        RewriteReadsCodeChildOnly(node.Snapshot(), c.Snapshot(), old(c.Snapshot()));
        RewriteIdempotent(old(node.Snapshot()), old(node.FirstChildFields()));
      }
      node.Visit();
      assert nodes[..i + 1] == nodes[..i] + [node];
    }
    assert nodes[..|nodes|] == nodes;
  }
}
