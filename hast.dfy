/** The HTML syntax tree (hast) the rehype plugin rewrites, and the in-memory view of it
    that the rewrite needs: the children array of each parent object, which the plugin
    splices and assigns into in place.

    A parent object is identified by the path (child indices from the root) at which
    it sits in the tree the plugin was given. Nodes are never moved between arrays, so
    the arrays can be kept in a map from those paths (`Heap`); an array that was never
    written is the parent's original children. */
module Hast {
  import opened Lists

  /** A property value as hast stores it; `className` is a list of tokens. */
  datatype PropValue = Str(s: string) | Num(n: int) | Flag(b: bool) | Tokens(ts: seq<string>)

  /** JavaScript truthiness of `properties[key]`, with `None` for `undefined`. */
  predicate Truthy(v: Option<PropValue>)
  {
    match v
    case None => false
    case Some(Str(s)) => s != []
    case Some(Num(x)) => x != 0
    case Some(Flag(b)) => b
    case Some(Tokens(_)) => true
  }

  /** `Literal` covers the nodes that carry a string `value` (`text`, `comment`, `raw`
      markup kept as `html`); `Hole` is an array slot left `undefined`. */
  datatype HNode =
    | Root(children: seq<HNode>)
    | Element(tagName: string, properties: map<string, PropValue>, children: seq<HNode>)
    | Literal(kind: string, value: string)
    | Hole

  /** The tree handed to a rehype transformer, which rewrites it in place. */
  class HTree {
    var root: HNode

    constructor (root: HNode)
      ensures this.root == root
    {
      this.root := root;
    }
  }

  predicate HasChildren(n: HNode)
  {
    n.Root? || n.Element?
  }

  function Children(n: HNode): seq<HNode>
  {
    if HasChildren(n) then n.children else []
  }

  predicate IsElement(n: HNode, tag: string)
  {
    n.Element? && n.tagName == tag
  }

  /** `node.properties[key]`. */
  function Prop(n: HNode, key: string): Option<PropValue>
  {
    if n.Element? && key in n.properties then Some(n.properties[key]) else None
  }

  type Path = seq<nat>

  /** The node reached from `n` by following child indices `p`. */
  function At(n: HNode, p: Path): Option<HNode>
    decreases |p|
  {
    if p == [] then Some(n)
    else if p[0] < |Children(n)| then At(Children(n)[p[0]], p[1..])
    else None
  }

  lemma {:induction false} AtAppend(n: HNode, p: Path, j: nat)
    ensures At(n, p + [j]) ==
      if At(n, p).Some? && j < |Children(At(n, p).value)| then Some(Children(At(n, p).value)[j]) else None
    decreases |p|
  {
    if p != [] {
      assert (p + [j])[1..] == p[1..] + [j];
      if p[0] < |Children(n)| {
        AtAppend(Children(n)[p[0]], p[1..], j);
      }
    }
  }

  /** The object a node at `p` hangs from is at `p` without its last index. */
  lemma AtParent(n: HNode, p: Path)
    requires |p| > 0 && At(n, p).Some?
    ensures At(n, p[..|p| - 1]).Some?
    ensures p[|p| - 1] < |Children(At(n, p[..|p| - 1]).value)|
    ensures Children(At(n, p[..|p| - 1]).value)[p[|p| - 1]] == At(n, p).value
  {
    assert p == p[..|p| - 1] + [p[|p| - 1]];
    AtAppend(n, p[..|p| - 1], p[|p| - 1]);
  }

  lemma {:induction false} AtConcat(n: HNode, p: Path, q: Path)
    requires At(n, p).Some?
    ensures At(n, p + q) == At(At(n, p).value, q)
    decreases |p|
  {
    if p != [] {
      assert (p + q)[0] == p[0] && (p + q)[1..] == p[1..] + q;
      var c := Children(n)[p[0]];
      assert At(n, p) == At(c, p[1..]);
      AtConcat(c, p[1..], q);
      assert At(n, p + q) == At(c, p[1..] + q);
    } else {
      assert p + q == q;
    }
  }

  // ---- Children arrays in memory ----

  /** An entry of a children array: the object originally at index `j` of the same
      parent, a node the plugin created, or a hole. */
  datatype Slot = Orig(j: nat) | New(node: HNode) | Gap

  type Heap = map<Path, seq<Slot>>

  /** The untouched children array of a parent with `k` children. */
  function Ident(k: nat): (r: seq<Slot>)
    ensures |r| == k && forall j :: 0 <= j < k ==> r[j] == Orig(j)
  {
    seq(k, j requires 0 <= j < k => Orig(j))
  }

  /** The children array of the parent object at `p`. */
  function Array(root: HNode, h: Heap, p: Path): seq<Slot>
  {
    if p in h then h[p]
    else if At(root, p).Some? then Ident(|Children(At(root, p).value)|)
    else []
  }

  /** `a.splice(i, 1)`. */
  function Splice(a: seq<Slot>, i: nat): (r: seq<Slot>)
    ensures i < |a| ==> |r| == |a| - 1 && r[..i] == a[..i] && r[i..] == a[i + 1..]
    ensures i >= |a| ==> r == a
  {
    if i < |a| then a[..i] + a[i + 1..] else a
  }

  /** `a[i] = x`: an index past the end grows the array, leaving holes. */
  function Assign(a: seq<Slot>, i: nat, x: Slot): (r: seq<Slot>)
    ensures |r| == if i < |a| then |a| else i + 1
    ensures r[i] == x && forall k :: 0 <= k < |a| && k != i ==> r[k] == a[k]
    ensures forall k :: |a| <= k < i ==> r[k] == Gap
  {
    if i < |a| then a[i := x] else a + seq(i - |a|, _ => Gap) + [x]
  }

  /** The tree as it now hangs together: each parent's current children array, read
      from the heap, with the original objects expanded in their turn. */
  function Materialize(n: HNode, p: Path, h: Heap): HNode
    decreases n, 1
  {
    match n
    case Root(_) => Root(MaterializeSlots(n, p, h))
    case Element(t, props, _) => Element(t, props, MaterializeSlots(n, p, h))
    case _ => n
  }

  function MaterializeSlots(n: HNode, p: Path, h: Heap): seq<HNode>
    requires HasChildren(n)
    decreases n, 0
  {
    var a := if p in h then h[p] else Ident(|n.children|);
    seq(|a|, k requires 0 <= k < |a| =>
      match a[k]
      case Orig(j) => if j < |n.children| then Materialize(n.children[j], p + [j], h) else Hole
      case New(x) => x
      case Gap => Hole)
  }

  /** With no array written, the tree is the one the plugin was given. */
  lemma {:induction false} MaterializeUnwritten(n: HNode, p: Path)
    ensures Materialize(n, p, map[]) == n
    decreases n
  {
    if HasChildren(n) {
      forall j | 0 <= j < |n.children| {
        MaterializeUnwritten(n.children[j], p + [j]);
      }
      assert MaterializeSlots(n, p, map[]) == n.children;
    }
  }

  // ---- Removing positions from an array ----

  /** `a` without the entries at the positions in `drop`, in order. */
  function Without(a: seq<Slot>, drop: set<nat>): seq<Slot>
  {
    WithoutFrom(a, drop, 0)
  }

  function WithoutFrom(a: seq<Slot>, drop: set<nat>, j: nat): seq<Slot>
    decreases |a| - j
  {
    if j >= |a| then []
    else (if j in drop then [] else [a[j]]) + WithoutFrom(a, drop, j + 1)
  }

  lemma {:induction false} WithoutFromLength(a: seq<Slot>, drop: set<nat>, j: nat)
    requires j <= |a|
    ensures |WithoutFrom(a, drop, j)| <= |a| - j
    decreases |a| - j
  {
    if j < |a| {
      WithoutFromLength(a, drop, j + 1);
    }
  }

  /** Positions before the first dropped one are kept as they are. */
  lemma {:induction false} WithoutFromKeeps(a: seq<Slot>, drop: set<nat>, j: nat, m: nat)
    requires j <= m <= |a| && forall y :: y in drop ==> y >= m
    ensures WithoutFrom(a, drop, j) == a[j..m] + WithoutFrom(a, drop, m)
    decreases m - j
  {
    if j < m {
      WithoutFromKeeps(a, drop, j + 1, m);
      var rest := WithoutFrom(a, drop, m);
      assert j !in drop;
      assert WithoutFrom(a, drop, j) == [a[j]] + (a[j + 1..m] + rest);
      assert a[j..m] == [a[j]] + a[j + 1..m];
      assert [a[j]] + (a[j + 1..m] + rest) == ([a[j]] + a[j + 1..m]) + rest;
    }
  }

  /** Only the positions from `j` on matter. */
  lemma {:induction false} WithoutFromAgree(a: seq<Slot>, b: seq<Slot>, drop: set<nat>, drop': set<nat>, j: nat)
    requires |a| == |b| && forall k :: j <= k < |a| ==> a[k] == b[k]
    requires forall k :: j <= k < |a| ==> (k in drop <==> k in drop')
    ensures WithoutFrom(a, drop, j) == WithoutFrom(b, drop', j)
    decreases |a| - j
  {
    if j < |a| {
      WithoutFromAgree(a, b, drop, drop', j + 1);
    }
  }

  /** Splicing out the entry between `u` and `v`. */
  lemma SpliceMiddle(u: seq<Slot>, y: Slot, v: seq<Slot>)
    ensures Splice(u + [y] + v, |u|) == u + v
  {
    var w := u + [y] + v;
    assert w[..|u|] == u;
    assert w[|u| + 1..] == v;
  }

  /** Splicing out position `x`, when every position dropped so far lies after it, is
      dropping `x` too. */
  lemma SpliceWithout(a: seq<Slot>, drop: set<nat>, x: nat)
    requires forall y :: y in drop ==> y > x
    ensures Splice(Without(a, drop), x) == Without(a, drop + {x})
  {
    if x < |a| {
      var rest := WithoutFrom(a, drop, x + 1);
      WithoutFromKeeps(a, drop, 0, x);
      WithoutFromKeeps(a, drop + {x}, 0, x);
      WithoutFromAgree(a, a, drop, drop + {x}, x + 1);
      assert WithoutFrom(a, drop, x) == [a[x]] + rest;
      assert WithoutFrom(a, drop + {x}, x) == rest;
      assert Without(a, drop) == a[..x] + [a[x]] + rest;
      SpliceMiddle(a[..x], a[x], rest);
    } else {
      WithoutFromAgree(a, a, drop, drop + {x}, 0);
      WithoutFromLength(a, drop, 0);
    }
  }
}
