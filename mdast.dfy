/** The markdown syntax tree (mdast) the two remark plugins walk. A node keeps the
    fields the plugins read or write: its `type`, the `url` of a link, the `value` of a
    literal such as `html`, the `data` object, and its children (a leaf has none). */
module Mdast {
  import opened Lists

  /** `node.data`. Only `hProperties`, the properties `mdast-util-to-hast` copies onto
      the HTML element it produces, is modelled. */
  datatype Data = Data(hProperties: Option<map<string, string>>)

  datatype MdNode = MdNode(kind: string, url: Option<string>, value: Option<string>,
                           data: Option<Data>, children: seq<MdNode>)

  /** The tree handed to a remark transformer, which rewrites it in place. */
  class Tree {
    var root: MdNode

    constructor (root: MdNode)
      ensures this.root == root
    {
      this.root := root;
    }
  }

  /** `node.data?.hProperties?.[key]`. */
  function Property(d: Option<Data>, key: string): Option<string>
  {
    if d.Some? && d.value.hProperties.Some? && key in d.value.hProperties.value
    then Some(d.value.hProperties.value[key])
    else None
  }

  /** Creating `data` and `data.hProperties` when they are missing, then assigning
      `hProperties[key] = v`. */
  function SetProperty(d: Option<Data>, key: string, v: string): (r: Data)
    ensures Property(Some(r), key) == Some(v)
    ensures forall k :: k != key ==> Property(Some(r), k) == Property(d, k)
  {
    var props := if d.Some? && d.value.hProperties.Some? then d.value.hProperties.value else map[];
    Data(Some(props[key := v]))
  }

  /** Writing a property a second time with the value it already has changes nothing. */
  lemma SetPropertyAgain(d: Option<Data>, key: string, v: string)
    ensures SetProperty(Some(SetProperty(d, key, v)), key, v) == SetProperty(d, key, v)
  {
    var props := SetProperty(d, key, v).hProperties.value;
    assert props[key := v] == props;
  }

  /** The node without its `data`, at every depth: what a pass that writes only
      metadata must leave alone. */
  function Shape(n: MdNode): (r: MdNode)
    ensures r.data.None? && r.kind == n.kind && r.url == n.url && r.value == n.value
    ensures |r.children| == |n.children|
  {
    MdNode(n.kind, n.url, n.value, None,
           seq(|n.children|, i requires 0 <= i < |n.children| => Shape(n.children[i])))
  }

  /** The node itself, with its children dropped. */
  function Top(n: MdNode): MdNode
  {
    n.(children := [])
  }

  /** The node reached from `n` by following child indices `p`. */
  function At(n: MdNode, p: seq<nat>): Option<MdNode>
    decreases |p|
  {
    if p == [] then Some(n)
    else if p[0] < |n.children| then At(n.children[p[0]], p[1..])
    else None
  }
}
