/** `rehypeImageCredits`: wraps every credited image of the HTML tree in
    `figure.image-with-credit`, with the credit as a `figcaption.image-credit`, and
    deletes the credit comments whose image carries a credit.

    The transformer works in two phases. A pre-order visit of the tree records two
    worklists: the comments to remove (parent, index) and the nodes to replace
    (parent, index, new node). Then, walking each list from its end, it splices out
    the comments and afterwards assigns the new nodes into the recorded slots. A
    parent is identified by the path at which it sits in the original tree. */
module RehypeCredits {
  import opened Lists
  import opened CreditPatterns
  import opened Hast

  /** The property that carries a credit over from the markdown tree. */
  const CreditKey: string := "data-credit"

  datatype Removal = Removal(parent: Path, index: nat)
  datatype Replacement = Replacement(parent: Path, index: nat, newNode: HNode)

  // ---- Phase 1: what the visit callback records for one node ----

  /** The callback's comment test: an `html` node matching
      `/<!--\s*credit:\s*(.+?)\s*-->/i`, or a `comment` node matching `/credit:\s*(.+)/i`. */
  predicate CreditComment(n: HNode)
  {
    n.Literal?
    && ((n.kind == "html" && HtmlCreditCapture(n.value).Some?)
        || (n.kind == "comment" && IsCommentCredit(n.value)))
  }

  /** `children.find(child => child is an img element)`. */
  function FindImg(cs: seq<HNode>, i: nat): (r: Option<nat>)
    requires i <= |cs|
    ensures r.Some? ==> i <= r.value < |cs| && IsElement(cs[r.value], "img")
    ensures r.Some? ==> forall j :: i <= j < r.value ==> !IsElement(cs[j], "img")
    ensures r.None? ==> forall j :: i <= j < |cs| ==> !IsElement(cs[j], "img")
    decreases |cs| - i
  {
    if i == |cs| then None
    else if IsElement(cs[i], "img") then Some(i)
    else FindImg(cs, i + 1)
  }

  /** The image a comment at position `i` of `parent` refers to: the previous sibling
      when it is an `img`, or the first `img` child of a previous `p`. */
  function ImageBefore(parent: HNode, i: nat): (r: Option<HNode>)
    ensures r.Some? ==> IsElement(r.value, "img")
    ensures r.Some? <==>
              0 < i <= |Children(parent)|
              && (IsElement(Children(parent)[i - 1], "img")
                  || (IsElement(Children(parent)[i - 1], "p") && FindImg(Children(parent)[i - 1].children, 0).Some?))
    ensures r.Some? && IsElement(Children(parent)[i - 1], "img") ==> r.value == Children(parent)[i - 1]
    ensures r.Some? && !IsElement(Children(parent)[i - 1], "img") ==>
              r.value == Children(parent)[i - 1].children[FindImg(Children(parent)[i - 1].children, 0).value]
  {
    var cs := Children(parent);
    if i == 0 || i > |cs| then None
    else if IsElement(cs[i - 1], "img") then Some(cs[i - 1])
    else if IsElement(cs[i - 1], "p") then
      match FindImg(cs[i - 1].children, 0)
      case Some(k) => Some(cs[i - 1].children[k])
      case None => None
    else None
  }

  /** The comment at position `i` of `parent` is queued for removal. */
  predicate Removable(parent: HNode, i: nat)
  {
    i < |Children(parent)| && CreditComment(Children(parent)[i])
    && ImageBefore(parent, i).Some? && Truthy(Prop(ImageBefore(parent, i).value, CreditKey))
  }

  /** What the callback pushes on `commentsToRemove` for the child at `i` of the
      parent at path `p`. */
  function RemovalFor(parent: HNode, p: Path, i: nat): (r: Option<Removal>)
    ensures r.Some? <==> Removable(parent, i)
    ensures r.Some? ==> r.value == Removal(p, i)
  {
    if Removable(parent, i) then Some(Removal(p, i)) else None
  }

  /** `h("figure", {className: "image-with-credit"}, [h("img", {...properties,
      "data-credit": undefined}), h("figcaption", {className: "image-credit"}, credit)])`. */
  function Figure(props: map<string, PropValue>, credit: string): (r: HNode)
    ensures IsElement(r, "figure") && r.properties == map["className" := Tokens(["image-with-credit"])]
    ensures |r.children| == 2 && IsElement(r.children[0], "img") && IsElement(r.children[1], "figcaption")
    ensures r.children[0].children == [] && CreditKey !in r.children[0].properties
    ensures forall k :: k in props && k != CreditKey <==> k in r.children[0].properties
    ensures forall k :: k in r.children[0].properties ==> r.children[0].properties[k] == props[k]
    ensures r.children[1].properties == map["className" := Tokens(["image-credit"])]
    ensures r.children[1].children == [Literal("text", credit)]
  {
    Element("figure", map["className" := Tokens(["image-with-credit"])],
      [Element("img", props - {CreditKey}, []),
       Element("figcaption", map["className" := Tokens(["image-credit"])], [Literal("text", credit)])])
  }

  /** The image at position `i` of `parent` gets wrapped: its credit is a string and
      its parent is not a `figure`. */
  predicate Wrappable(parent: HNode, i: nat)
  {
    i < |Children(parent)| && IsElement(Children(parent)[i], "img")
    && Prop(Children(parent)[i], CreditKey).Some? && Prop(Children(parent)[i], CreditKey).value.Str?
    && !IsElement(parent, "figure")
  }

  /** The parent is a `p` whose only child is the image and that has a `parent`
      back-reference; the root has none. */
  predicate Collapses(parent: HNode, p: Path, linked: bool)
  {
    IsElement(parent, "p") && |parent.children| == 1 && linked && |p| > 0
  }

  /** What the callback pushes on `nodesToReplace` for the child at `i` of the parent
      at path `p`. `linked` says whether nodes carry `parent` back-references. */
  function ReplacementAt(parent: HNode, p: Path, i: nat, linked: bool): (r: Option<Replacement>)
    ensures r.Some? <==> Wrappable(parent, i)
    ensures r.Some? ==>
      (r.value.newNode == Figure(Children(parent)[i].properties, Children(parent)[i].properties[CreditKey].s))
    ensures r.Some? && Collapses(parent, p, linked) ==> r.value.parent == p[..|p| - 1] && r.value.index == p[|p| - 1]
    ensures r.Some? && !Collapses(parent, p, linked) ==> r.value.parent == p && r.value.index == i
  {
    if Wrappable(parent, i) then
      var img := Children(parent)[i];
      var figure := Figure(img.properties, img.properties[CreditKey].s);
      if Collapses(parent, p, linked) then Some(Replacement(p[..|p| - 1], p[|p| - 1], figure))
      else Some(Replacement(p, i, figure))
    else None
  }

  // ---- Phase 1: the pre-order visit ----

  /** The visit callback's record for one (parent, path, index). */
  type Finder<T> = (HNode, Path, nat) -> Option<T>

  function AsSeq<T>(o: Option<T>): seq<T>
  {
    if o.Some? then [o.value] else []
  }

  /** What the callback records while the visit walks `n`'s descendants, `n` being at
      path `p`: each child in order, its own record first, then its subtree. */
  function Collect<T>(f: Finder<T>, n: HNode, p: Path): seq<T>
    decreases n, 1, 0
  {
    CollectFrom(f, n, p, 0)
  }

  function CollectFrom<T>(f: Finder<T>, n: HNode, p: Path, i: nat): seq<T>
    decreases n, 0, |Children(n)| - i
  {
    if HasChildren(n) && i < |n.children| then
      AsSeq(f(n, p, i)) + Collect(f, n.children[i], p + [i]) + CollectFrom(f, n, p, i + 1)
    else []
  }

  function RemovalFinder(): Finder<Removal>
  {
    (parent: HNode, p: Path, i: nat) => RemovalFor(parent, p, i)
  }

  function ReplacementFinder(linked: bool): Finder<Replacement>
  {
    (parent: HNode, p: Path, i: nat) => ReplacementAt(parent, p, i, linked)
  }

  /** `commentsToRemove` after the visit. The root has no parent, so it adds nothing. */
  function Removals(root: HNode): seq<Removal>
  {
    Collect(RemovalFinder(), root, [])
  }

  /** `nodesToReplace` after the visit. */
  function Replacements(root: HNode, linked: bool): seq<Replacement>
  {
    Collect(ReplacementFinder(linked), root, [])
  }

  /** `f` records `x` for the child at `i` of the node at `q` below `n`. */
  ghost predicate FoundAt<T>(f: Finder<T>, n: HNode, p: Path, q: Path, i: nat, x: T)
  {
    At(n, q).Some? && i < |Children(At(n, q).value)| && f(At(n, q).value, p + q, i) == Some(x)
  }

  /** ... and that child comes at or after child `i0` of `n` in the visit. */
  ghost predicate FoundFrom<T>(f: Finder<T>, n: HNode, p: Path, i0: nat, q: Path, i: nat, x: T)
  {
    FoundAt(f, n, p, q, i, x) && (if q == [] then i0 <= i else i0 <= q[0])
  }

  /** The visit reaches every node: a record is in the list exactly when the callback
      makes it for some node below `n`. */
  lemma {:induction false} CollectIff<T>(f: Finder<T>, n: HNode, p: Path, x: T)
    ensures x in Collect(f, n, p) <==> exists q: Path, i: nat :: FoundAt(f, n, p, q, i, x)
    decreases n, 1, 0
  {
    CollectFromIff(f, n, p, 0, x);
    if exists q: Path, i: nat :: FoundAt(f, n, p, q, i, x) {
      var q: Path, i: nat :| FoundAt(f, n, p, q, i, x);
      assert FoundFrom(f, n, p, 0, q, i, x);
    }
  }

  lemma {:induction false} CollectFromIff<T>(f: Finder<T>, n: HNode, p: Path, i0: nat, x: T)
    ensures x in CollectFrom(f, n, p, i0) <==> exists q: Path, i: nat :: FoundFrom(f, n, p, i0, q, i, x)
    decreases n, 0, |Children(n)| - i0
  {
    if HasChildren(n) && i0 < |n.children| {
      var c := n.children[i0];
      CollectIff(f, c, p + [i0], x);
      CollectFromIff(f, n, p, i0 + 1, x);
      if x in CollectFrom(f, n, p, i0) {
        if x in AsSeq(f(n, p, i0)) {
          assert p + [] == p;
          assert FoundFrom(f, n, p, i0, [], i0, x);
        } else if x in Collect(f, c, p + [i0]) {
          var q': Path, i: nat :| FoundAt(f, c, p + [i0], q', i, x);
          FoundInChild(f, n, p, i0, q', i, x);
        } else {
          var q: Path, i: nat :| FoundFrom(f, n, p, i0 + 1, q, i, x);
          assert FoundFrom(f, n, p, i0, q, i, x);
        }
      }
      if exists q: Path, i: nat :: FoundFrom(f, n, p, i0, q, i, x) {
        var q: Path, i: nat :| FoundFrom(f, n, p, i0, q, i, x);
        if q == [] && i == i0 {
          assert p + [] == p;
        } else if q != [] && q[0] == i0 {
          FoundInChildBack(f, n, p, q, i, x);
        } else {
          assert FoundFrom(f, n, p, i0 + 1, q, i, x);
        }
      }
    }
  }

  /** A record found below child `i0` is found below `n`. */
  lemma FoundInChild<T>(f: Finder<T>, n: HNode, p: Path, i0: nat, q': Path, i: nat, x: T)
    requires HasChildren(n) && i0 < |n.children|
    requires FoundAt(f, n.children[i0], p + [i0], q', i, x)
    ensures FoundFrom(f, n, p, i0, [i0] + q', i, x)
  {
    var q := [i0] + q';
    assert q[0] == i0 && q[1..] == q';
    assert At(n, q) == At(n.children[i0], q');
    assert p + q == p + [i0] + q';
  }

  lemma FoundInChildBack<T>(f: Finder<T>, n: HNode, p: Path, q: Path, i: nat, x: T)
    requires HasChildren(n) && q != [] && FoundAt(f, n, p, q, i, x)
    ensures q[0] < |n.children| && FoundAt(f, n.children[q[0]], p + [q[0]], q[1..], i, x)
  {
    assert q == [q[0]] + q[1..];
    assert p + q == p + [q[0]] + q[1..];
  }

  // ---- Phase 1: the order of the removal list ----

  /** Within each parent, the recorded indices increase along the list. */
  ghost predicate Ascending(rs: seq<Removal>)
  {
    forall a, b :: 0 <= a < b < |rs| && rs[a].parent == rs[b].parent ==> rs[a].index < rs[b].index
  }

  ghost predicate Below(p: Path, q: Path)
  {
    |p| <= |q| && q[..|p|] == p
  }

  /** A record made while visiting the children of the node at `p` from child `i` on. */
  ghost predicate Placed(p: Path, i: nat, r: Removal)
  {
    (r.parent == p && i <= r.index) || (|p| < |r.parent| && r.parent[..|p|] == p && i <= r.parent[|p|])
  }

  lemma AscendingConcat(a: seq<Removal>, b: seq<Removal>)
    requires Ascending(a) && Ascending(b)
    requires forall x, y :: x in a && y in b && x.parent == y.parent ==> x.index < y.index
    ensures Ascending(a + b)
  {
    forall i, j | 0 <= i < j < |a + b| && (a + b)[i].parent == (a + b)[j].parent
      ensures (a + b)[i].index < (a + b)[j].index
    {
      if j < |a| {
        assert (a + b)[i] == a[i] && (a + b)[j] == a[j];
      } else if i >= |a| {
        assert (a + b)[i] == b[i - |a|] && (a + b)[j] == b[j - |a|];
      } else {
        assert (a + b)[i] in a && (a + b)[j] in b;
      }
    }
  }

  /** Pre-order visits the children of a parent in increasing index order, and
      records nothing for that parent while inside a child's subtree. */
  lemma {:induction false} RemovalsInOrder(n: HNode, p: Path)
    ensures Ascending(Collect(RemovalFinder(), n, p))
    ensures forall r :: r in Collect(RemovalFinder(), n, p) ==> Below(p, r.parent)
    decreases n, 1, 0
  {
    RemovalsFromInOrder(n, p, 0);
    forall r | r in Collect(RemovalFinder(), n, p)
      ensures Below(p, r.parent)
    {
      assert Placed(p, 0, r);
    }
  }

  /** The callback's removal for a child names that child's parent and index. */
  lemma RemovalRecord(n: HNode, p: Path, i: nat)
    ensures forall r :: r in AsSeq(RemovalFinder()(n, p, i)) ==> r == Removal(p, i)
  {
  }

  lemma {:induction false} RemovalsFromInOrder(n: HNode, p: Path, i: nat)
    ensures Ascending(CollectFrom(RemovalFinder(), n, p, i))
    ensures forall r :: r in CollectFrom(RemovalFinder(), n, p, i) ==> Placed(p, i, r)
    decreases n, 0, |Children(n)| - i
  {
    if HasChildren(n) && i < |n.children| {
      var f := RemovalFinder();
      var a := AsSeq(f(n, p, i));
      var b := Collect(f, n.children[i], p + [i]);
      var c := CollectFrom(f, n, p, i + 1);
      RemovalsInOrder(n.children[i], p + [i]);
      RemovalsFromInOrder(n, p, i + 1);
      RemovalRecord(n, p, i);
      forall r | r in b
        ensures |p| < |r.parent| && r.parent[..|p|] == p && r.parent[|p|] == i
      {
        assert Below(p + [i], r.parent);
        assert r.parent[..|p|] == (p + [i])[..|p|];
        assert r.parent[|p|] == (p + [i])[|p|];
      }
      AscendingConcat(a, b);
      AscendingConcat(a + b, c);
      assert CollectFrom(f, n, p, i) == a + b + c;
    }
  }

  // ---- Phase 2: the two countdown loops ----

  /** `parent.children.splice(index, 1)`. */
  function ApplyRemoval(root: HNode, h: Heap, r: Removal): Heap
  {
    h[r.parent := Splice(Array(root, h, r.parent), r.index)]
  }

  /** The loop over `commentsToRemove` from its last entry to its first. */
  function RemoveAll(root: HNode, h: Heap, rs: seq<Removal>): Heap
    decreases |rs|
  {
    if rs == [] then h else ApplyRemoval(root, RemoveAll(root, h, rs[1..]), rs[0])
  }

  /** `parent.children[index] = newNode`. */
  function ApplyReplacement(root: HNode, h: Heap, q: Replacement): Heap
  {
    h[q.parent := Assign(Array(root, h, q.parent), q.index, New(q.newNode))]
  }

  /** The loop over `nodesToReplace` from its last entry to its first. */
  function ReplaceAll(root: HNode, h: Heap, qs: seq<Replacement>): Heap
    decreases |qs|
  {
    if qs == [] then h else ApplyReplacement(root, ReplaceAll(root, h, qs[1..]), qs[0])
  }

  /** The arrays after the transformer as written: splices, then assignments at the
      indices recorded before the splices. */
  function AsWrittenHeap(root: HNode, linked: bool): Heap
  {
    ReplaceAll(root, RemoveAll(root, map[], Removals(root)), Replacements(root, linked))
  }

  /** The tree after the transformer as written. */
  function AsWritten(root: HNode, linked: bool): HNode
  {
    Materialize(root, [], AsWrittenHeap(root, linked))
  }

  /** The arrays when each figure goes into its slot before any comment is spliced out. */
  function CorrectedHeap(root: HNode, linked: bool): Heap
  {
    RemoveAll(root, ReplaceAll(root, map[], Replacements(root, linked)), Removals(root))
  }

  function Corrected(root: HNode, linked: bool): HNode
  {
    Materialize(root, [], CorrectedHeap(root, linked))
  }

  /** The indices recorded for parent `p`. */
  function IndicesAt(rs: seq<Removal>, p: Path): set<nat>
    decreases |rs|
  {
    if rs == [] then {}
    else (if rs[0].parent == p then {rs[0].index} else {}) + IndicesAt(rs[1..], p)
  }

  lemma {:induction false} IndexWitness(rs: seq<Removal>, p: Path, y: nat) returns (b: nat)
    requires y in IndicesAt(rs, p)
    ensures b < |rs| && rs[b].parent == p && rs[b].index == y
    decreases |rs|
  {
    if rs[0].parent == p && rs[0].index == y {
      b := 0;
    } else {
      var b' := IndexWitness(rs[1..], p, y);
      b := b' + 1;
    }
  }

  lemma WithoutNothing(a: seq<Slot>)
    ensures Without(a, {}) == a
  {
    WithoutFromKeeps(a, {}, 0, |a|);
  }

  /** Because the recorded indices of a parent increase along the list and the loop
      runs from the end, each splice removes exactly the recorded child: the array
      ends as the original one without the recorded positions. */
  lemma {:induction false} RemoveAllWithout(root: HNode, h: Heap, rs: seq<Removal>, p: Path)
    requires Ascending(rs)
    ensures Array(root, RemoveAll(root, h, rs), p) == Without(Array(root, h, p), IndicesAt(rs, p))
    decreases |rs|
  {
    if rs == [] {
      WithoutNothing(Array(root, h, p));
    } else {
      var rest := rs[1..];
      assert Ascending(rest) by {
        forall a, b | 0 <= a < b < |rest| && rest[a].parent == rest[b].parent
          ensures rest[a].index < rest[b].index
        {
          assert rest[a] == rs[a + 1] && rest[b] == rs[b + 1];
        }
      }
      RemoveAllWithout(root, h, rest, p);
      if rs[0].parent == p {
        forall y | y in IndicesAt(rest, p)
          ensures y > rs[0].index
        {
          var b := IndexWitness(rest, p, y);
          assert rest[b] == rs[b + 1];
        }
        SpliceWithout(Array(root, h, p), IndicesAt(rest, p), rs[0].index);
        var h' := RemoveAll(root, h, rest);
        assert Array(root, RemoveAll(root, h, rs), p) == Splice(Array(root, h', p), rs[0].index);
        assert IndicesAt(rs, p) == IndicesAt(rest, p) + {rs[0].index};
      } else {
        assert IndicesAt(rs, p) == IndicesAt(rest, p);
        assert Array(root, RemoveAll(root, h, rs), p) == Array(root, RemoveAll(root, h, rest), p);
      }
    }
  }

  /** The new node of the first record for slot `x` of parent `p`: the one the
      countdown loop assigns last. */
  function FirstAt(qs: seq<Replacement>, p: Path, x: nat): (r: Option<HNode>)
    ensures r.Some? ==> exists q :: q in qs && q.parent == p && q.index == x && q.newNode == r.value
    ensures r.None? ==> forall q :: q in qs && q.parent == p ==> q.index != x
    decreases |qs|
  {
    if qs == [] then None
    else if qs[0].parent == p && qs[0].index == x then Some(qs[0].newNode)
    else FirstAt(qs[1..], p, x)
  }

  /** What slot `x` of parent `p` holds after the assignments, given what it held. */
  function Written(qs: seq<Replacement>, p: Path, x: nat, before: Slot): Slot
  {
    match FirstAt(qs, p, x)
    case Some(node) => New(node)
    case None => before
  }

  /** Array `a` after the assignments recorded for parent `p`, when they stay in range. */
  function WriteAll(qs: seq<Replacement>, p: Path, a: seq<Slot>): (r: seq<Slot>)
    ensures |r| == |a| && forall x :: 0 <= x < |a| ==> r[x] == Written(qs, p, x, a[x])
  {
    seq(|a|, x requires 0 <= x < |a| => Written(qs, p, x, a[x]))
  }

  /** Dropping positions that all lie after every written slot commutes with the writes. */
  lemma WithoutWriteAll(qs: seq<Replacement>, p: Path, a: seq<Slot>, drop: set<nat>, m: nat)
    requires m <= |a|
    requires forall y :: y in drop ==> y >= m
    requires forall q :: q in qs && q.parent == p ==> q.index < m
    ensures Without(WriteAll(qs, p, a), drop) == WriteAll(qs, p, Without(a, drop))
  {
    var v := WriteAll(qs, p, a);
    WithoutFromKeeps(a, drop, 0, m);
    WithoutFromKeeps(v, drop, 0, m);
    forall x | m <= x < |a|
      ensures v[x] == a[x]
    {
      assert FirstAt(qs, p, x).None?;
    }
    WithoutFromAgree(v, a, drop, drop, m);
    var w := Without(a, drop);
    assert w == a[..m] + WithoutFrom(a, drop, m);
    assert Without(v, drop) == v[..m] + WithoutFrom(a, drop, m);
    forall x | 0 <= x < |w|
      ensures WriteAll(qs, p, w)[x] == Without(v, drop)[x]
    {
      if x >= m {
        assert FirstAt(qs, p, x).None?;
      }
    }
  }

  /** When every record for `p` names an existing slot, the assignments overwrite
      slots and never grow the array. */
  lemma {:induction false} ReplaceAllSlots(root: HNode, h: Heap, qs: seq<Replacement>, p: Path)
    requires forall q :: q in qs && q.parent == p ==> q.index < |Array(root, h, p)|
    ensures |Array(root, ReplaceAll(root, h, qs), p)| == |Array(root, h, p)|
    ensures forall x :: 0 <= x < |Array(root, h, p)| ==>
      Array(root, ReplaceAll(root, h, qs), p)[x] == Written(qs, p, x, Array(root, h, p)[x])
    ensures Array(root, ReplaceAll(root, h, qs), p) == WriteAll(qs, p, Array(root, h, p))
    decreases |qs|
  {
    if qs != [] {
      ReplaceAllSlots(root, h, qs[1..], p);
      var h' := ReplaceAll(root, h, qs[1..]);
      if qs[0].parent == p {
        assert Array(root, ReplaceAll(root, h, qs), p) == Array(root, h', p)[qs[0].index := New(qs[0].newNode)];
      } else {
        assert Array(root, ReplaceAll(root, h, qs), p) == Array(root, h', p);
      }
    }
  }

  /** One more than the largest index recorded for `p`, or 0 when there is none. */
  function SlotBound(qs: seq<Replacement>, p: Path): (m: nat)
    ensures forall q :: q in qs && q.parent == p ==> q.index < m
    ensures m == 0 || exists q :: q in qs && q.parent == p && q.index + 1 == m
    decreases |qs|
  {
    if qs == [] then 0
    else
      var m := SlotBound(qs[1..], p);
      if qs[0].parent == p && qs[0].index + 1 > m then qs[0].index + 1 else m
  }

  /** Every record names a slot that exists in the tree: a child of the recorded
      parent, or, when a `p` collapses, the `p`'s own slot in its parent. */
  lemma ReplacementsInRange(root: HNode, linked: bool)
    ensures forall q :: q in Replacements(root, linked) ==> q.index < |Array(root, map[], q.parent)|
  {
    var f := ReplacementFinder(linked);
    forall q | q in Replacements(root, linked)
      ensures q.index < |Array(root, map[], q.parent)|
    {
      CollectIff(f, root, [], q);
      var path: Path, i: nat :| FoundAt(f, root, [], path, i, q);
      assert [] + path == path;
      var m := At(root, path).value;
      if Collapses(m, path, linked) {
        AtParent(root, path);
      }
    }
  }

  /** The intended children array of parent `p`: every original child that is not a
      removed comment, in order, with a figure in place of each replaced child. */
  function Intended(root: HNode, linked: bool, p: Path): seq<Slot>
  {
    var k := |Array(root, map[], p)|;
    var qs := Replacements(root, linked);
    Without(WriteAll(qs, p, Ident(k)), IndicesAt(Removals(root), p))
  }

  /** With the replacements made first, every figure lands on the node it was made for
      and every recorded comment is removed, in every parent. */
  lemma CorrectedLands(root: HNode, linked: bool, p: Path)
    ensures Array(root, CorrectedHeap(root, linked), p) == Intended(root, linked, p)
  {
    var qs := Replacements(root, linked);
    var rs := Removals(root);
    var h := ReplaceAll(root, map[], qs);
    var k := |Array(root, map[], p)|;
    ReplacementsInRange(root, linked);
    ReplaceAllSlots(root, map[], qs, p);
    RemovalsInOrder(root, []);
    RemoveAllWithout(root, h, rs, p);
    assert Array(root, map[], p) == Ident(k);
  }

  /** As written, the transformer does what was intended in every parent where no
      removed comment comes before a replaced slot: the splices then leave the
      recorded slots where they were. */
  lemma AsWrittenAgrees(root: HNode, linked: bool, p: Path)
    requires forall q, y :: q in Replacements(root, linked) && q.parent == p && y in IndicesAt(Removals(root), p)
                            ==> q.index < y
    ensures Array(root, AsWrittenHeap(root, linked), p) == Intended(root, linked, p)
  {
    var qs := Replacements(root, linked);
    var rs := Removals(root);
    var drop := IndicesAt(rs, p);
    var a := Array(root, map[], p);
    var m := SlotBound(qs, p);
    ReplacementsInRange(root, linked);
    RemovalsInOrder(root, []);
    forall y | y in drop
      ensures y >= m
    {
      if m > 0 {
        var q :| q in qs && q.parent == p && q.index + 1 == m;
      }
    }
    assert a == Ident(|a|);
    var h1 := RemoveAll(root, map[], rs);
    RemoveAllWithout(root, map[], rs, p);
    WithoutFromKeeps(a, drop, 0, m);
    ReplaceAllSlots(root, h1, qs, p);
    WithoutWriteAll(qs, p, a, drop, m);
  }

  // ---- The two phases on a paragraph with two credited images ----

  /** A node without children records nothing below it. */
  lemma CollectLeaf<T>(f: Finder<T>, x: HNode, q: Path)
    requires Children(x) == []
    ensures Collect(f, x, q) == []
  {
    assert CollectFrom(f, x, q, 0) == [];
  }

  function CreditedImg(credit: string): HNode
  {
    Element("img", map[CreditKey := Str(credit)], [])
  }

  /** `p[img(a), comment(u), img(b), comment(w)]` as the only child of the root. */
  function TwoCredited(a: string, b: string, u: string, w: string): HNode
  {
    Root([Element("p", map[], [CreditedImg(a), Literal("comment", u), CreditedImg(b), Literal("comment", w)])])
  }

  lemma TwoCreditedRemovals(a: string, b: string, u: string, w: string)
    requires a != [] && b != [] && IsCommentCredit(u) && IsCommentCredit(w)
    ensures Removals(TwoCredited(a, b, u, w)) == [Removal([0], 1), Removal([0], 3)]
  {
    var tree := TwoCredited(a, b, u, w);
    var par := tree.children[0];
    var rf := RemovalFinder();
    forall j | 0 <= j < 4 {
      CollectLeaf(rf, par.children[j], [0] + [j]);
    }
    assert CollectFrom(rf, par, [0], 4) == [];
    assert CollectFrom(rf, par, [0], 3) == [Removal([0], 3)];
    assert CollectFrom(rf, par, [0], 2) == [Removal([0], 3)];
    assert CollectFrom(rf, par, [0], 1) == [Removal([0], 1), Removal([0], 3)];
    assert CollectFrom(rf, par, [0], 0) == [Removal([0], 1), Removal([0], 3)];
    assert CollectFrom(rf, tree, [], 1) == [];
    assert [] + [0] == [0];
    assert Collect(rf, par, [0]) == CollectFrom(rf, par, [0], 0);
    assert rf(tree, [], 0) == None;
    assert CollectFrom(rf, tree, [], 0) == Collect(rf, par, [0]);
    assert Collect(rf, tree, []) == CollectFrom(rf, tree, [], 0);
  }

  lemma TwoCreditedReplacements(a: string, b: string, u: string, w: string, linked: bool)
    ensures Replacements(TwoCredited(a, b, u, w), linked) ==
      [Replacement([0], 0, Figure(CreditedImg(a).properties, a)),
       Replacement([0], 2, Figure(CreditedImg(b).properties, b))]
  {
    var tree := TwoCredited(a, b, u, w);
    var par := tree.children[0];
    var qf := ReplacementFinder(linked);
    forall j | 0 <= j < 4 {
      CollectLeaf(qf, par.children[j], [0] + [j]);
    }
    var figA := Figure(CreditedImg(a).properties, a);
    var figB := Figure(CreditedImg(b).properties, b);
    assert CollectFrom(qf, par, [0], 4) == [];
    assert CollectFrom(qf, par, [0], 3) == [];
    assert CollectFrom(qf, par, [0], 2) == [Replacement([0], 2, figB)];
    assert CollectFrom(qf, par, [0], 1) == [Replacement([0], 2, figB)];
    assert CollectFrom(qf, par, [0], 0) == [Replacement([0], 0, figA), Replacement([0], 2, figB)];
    assert CollectFrom(qf, tree, [], 1) == [];
    assert [] + [0] == [0];
    assert Collect(qf, par, [0]) == CollectFrom(qf, par, [0], 0);
    assert qf(tree, [], 0) == None;
    assert CollectFrom(qf, tree, [], 0) == Collect(qf, par, [0]);
    assert Collect(qf, tree, []) == CollectFrom(qf, tree, [], 0);
  }

  lemma RemoveAllTwo(root: HNode, h: Heap, r1: Removal, r2: Removal)
    ensures RemoveAll(root, h, [r1, r2]) == ApplyRemoval(root, ApplyRemoval(root, h, r2), r1)
  {
    assert [r1, r2][1..] == [r2] && [r2][1..] == [];
    assert RemoveAll(root, h, [r2]) == ApplyRemoval(root, h, r2);
  }

  lemma ReplaceAllTwo(root: HNode, h: Heap, q1: Replacement, q2: Replacement)
    ensures ReplaceAll(root, h, [q1, q2]) == ApplyReplacement(root, ApplyReplacement(root, h, q2), q1)
  {
    assert [q1, q2][1..] == [q2] && [q2][1..] == [];
    assert ReplaceAll(root, h, [q2]) == ApplyReplacement(root, h, q2);
  }

  /** The splices at 3 and then 1 of a four-child array. */
  lemma SpliceThreeOne(root: HNode, h: Heap, s: seq<Slot>)
    requires Array(root, h, [0]) == s && |s| == 4
    ensures RemoveAll(root, h, [Removal([0], 1), Removal([0], 3)]) == h[[0] := [s[0], s[2]]]
  {
    RemoveAllTwo(root, h, Removal([0], 1), Removal([0], 3));
    var h1 := ApplyRemoval(root, h, Removal([0], 3));
    assert s[..3] + s[4..] == [s[0], s[1], s[2]];
    assert Splice(s, 3) == [s[0], s[1], s[2]];
    assert h1 == h[[0] := [s[0], s[1], s[2]]];
    assert Array(root, h1, [0]) == [s[0], s[1], s[2]];
    assert Splice([s[0], s[1], s[2]], 1) == [s[0], s[2]];
  }

  /** The assignments at 2 and then 0 of an array of at least three entries. */
  lemma AssignTwoZero(root: HNode, h: Heap, s: seq<Slot>, x: HNode, y: HNode)
    requires Array(root, h, [0]) == s && |s| >= 2
    ensures ReplaceAll(root, h, [Replacement([0], 0, x), Replacement([0], 2, y)]) ==
      h[[0] := Assign(s, 2, New(y))[0 := New(x)]]
  {
    ReplaceAllTwo(root, h, Replacement([0], 0, x), Replacement([0], 2, y));
    var h1 := ApplyReplacement(root, h, Replacement([0], 2, y));
    assert Array(root, h1, [0]) == Assign(s, 2, New(y));
  }

  lemma TwoCreditedAsWrittenHeap(a: string, b: string, u: string, w: string)
    requires a != [] && b != [] && IsCommentCredit(u) && IsCommentCredit(w)
    ensures AsWrittenHeap(TwoCredited(a, b, u, w), false) ==
      map[[0] := [New(Figure(CreditedImg(a).properties, a)), Orig(2), New(Figure(CreditedImg(b).properties, b))]]
  {
    var tree := TwoCredited(a, b, u, w);
    var figA := Figure(CreditedImg(a).properties, a);
    var figB := Figure(CreditedImg(b).properties, b);
    TwoCreditedRemovals(a, b, u, w);
    TwoCreditedReplacements(a, b, u, w, false);
    var s0 := [Orig(0), Orig(1), Orig(2), Orig(3)];
    assert Array(tree, map[], [0]) == s0;
    SpliceThreeOne(tree, map[], s0);
    var h1 := map[[0] := [Orig(0), Orig(2)]];
    assert map[][[0] := [s0[0], s0[2]]] == h1;
    AssignTwoZero(tree, h1, [Orig(0), Orig(2)], figA, figB);
    assert Assign([Orig(0), Orig(2)], 2, New(figB))[0 := New(figA)] == [New(figA), Orig(2), New(figB)];
  }

  /** As written: the splices move the second image onto the slot recorded for the
      first comment, so the figure meant for the second image is assigned past the end
      of the shortened array, and the second image stays, unwrapped, beside it. */
  lemma ShiftedFigure(a: string, b: string, u: string, w: string)
    requires a != [] && b != [] && IsCommentCredit(u) && IsCommentCredit(w)
    ensures AsWritten(TwoCredited(a, b, u, w), false) ==
      Root([Element("p", map[], [Figure(CreditedImg(a).properties, a), CreditedImg(b), Figure(CreditedImg(b).properties, b)])])
  {
    var tree := TwoCredited(a, b, u, w);
    var par := tree.children[0];
    var figA := Figure(CreditedImg(a).properties, a);
    var figB := Figure(CreditedImg(b).properties, b);
    TwoCreditedAsWrittenHeap(a, b, u, w);
    MaterializeOneParagraph(tree, [New(figA), Orig(2), New(figB)], [figA, CreditedImg(b), figB]);
  }

  /** A second run over that output is not a no-op: the unwrapped `img(b)` still
      carries its credit under a `p`, so the visit queues it for wrapping again. */
  lemma ShiftedFigureWrappedAgain(a: string, b: string, u: string, w: string, linked: bool)
    requires a != [] && b != [] && IsCommentCredit(u) && IsCommentCredit(w)
    ensures Replacements(AsWritten(TwoCredited(a, b, u, w), false), linked) != []
  {
    ShiftedFigure(a, b, u, w);
    var out := AsWritten(TwoCredited(a, b, u, w), false);
    var par := out.children[0];
    assert At(out, [0]) == Some(par) by {
      assert At(out, [0]) == At(out.children[0], [0][1..]);
    }
    var x := ReplacementAt(par, [] + [0], 1, linked).value;
    assert FoundAt(ReplacementFinder(linked), out, [], [0], 1, x);
    CollectIff(ReplacementFinder(linked), out, [], x);
  }

  /** A figure the pass builds makes the callback record nothing on a later visit: its
      `img` has no `data-credit` and sits in a `figure`, and it holds no comment. */
  lemma FigureRecordsNothing(props: map<string, PropValue>, credit: string, p: Path, linked: bool)
    ensures Collect(RemovalFinder(), Figure(props, credit), p) == []
    ensures Collect(ReplacementFinder(linked), Figure(props, credit), p) == []
  {
    var fig := Figure(props, credit);
    var img, cap := fig.children[0], fig.children[1];
    var text := cap.children[0];
    var rf, pf := RemovalFinder(), ReplacementFinder(linked);
    assert !Removable(cap, 0) && !Wrappable(cap, 0);
    assert Collect(rf, cap, p + [1]) == [] by {
      assert Collect(rf, text, p + [1] + [0]) == [] && CollectFrom(rf, cap, p + [1], 1) == [];
      assert rf(cap, p + [1], 0).None?;
      assert CollectFrom(rf, cap, p + [1], 0) == [] + Collect(rf, text, p + [1] + [0]) + CollectFrom(rf, cap, p + [1], 1);
    }
    assert Collect(pf, cap, p + [1]) == [] by {
      assert Collect(pf, text, p + [1] + [0]) == [] && CollectFrom(pf, cap, p + [1], 1) == [];
      assert pf(cap, p + [1], 0).None?;
      assert CollectFrom(pf, cap, p + [1], 0) == [] + Collect(pf, text, p + [1] + [0]) + CollectFrom(pf, cap, p + [1], 1);
    }
    assert !Removable(fig, 0) && !Removable(fig, 1) && !Wrappable(fig, 0) && !Wrappable(fig, 1);
    assert CollectFrom(rf, fig, p, 0) == [] + Collect(rf, img, p + [0]) + CollectFrom(rf, fig, p, 1);
    assert CollectFrom(rf, fig, p, 1) == [] + Collect(rf, cap, p + [1]) + CollectFrom(rf, fig, p, 2);
    assert CollectFrom(pf, fig, p, 0) == [] + Collect(pf, img, p + [0]) + CollectFrom(pf, fig, p, 1);
    assert CollectFrom(pf, fig, p, 1) == [] + Collect(pf, cap, p + [1]) + CollectFrom(pf, fig, p, 2);
  }

  /** The tree read back when only the array of the root's single `p` child was written. */
  lemma MaterializeOneParagraph(tree: HNode, s: seq<Slot>, cs: seq<HNode>)
    requires tree.Root? && |tree.children| == 1 && IsElement(tree.children[0], "p")
    requires tree.children[0].properties == map[]
    requires |s| == |cs| && forall k :: 0 <= k < |s| ==> !s[k].Gap?
    requires forall k :: 0 <= k < |s| && s[k].New? ==> cs[k] == s[k].node
    requires forall k :: 0 <= k < |s| && s[k].Orig? ==>
      s[k].j < |tree.children[0].children| && cs[k] == tree.children[0].children[s[k].j]
      && Children(cs[k]) == []
    ensures Materialize(tree, [], map[[0] := s]) == Root([Element("p", map[], cs)])
  {
    var h := map[[0] := s];
    var par := tree.children[0];
    forall k | 0 <= k < |s| && s[k].Orig?
      ensures Materialize(par.children[s[k].j], [0] + [s[k].j], h) == cs[k]
    {
      var c := par.children[s[k].j];
      assert [0] + [s[k].j] != [0];
      if HasChildren(c) {
        assert MaterializeSlots(c, [0] + [s[k].j], h) == [];
      }
    }
    assert MaterializeSlots(par, [0], h) == cs;
    assert [] + [0] == [0] && [] !in h;
    assert Materialize(par, [0], h) == Element("p", map[], cs);
    assert MaterializeSlots(tree, [], h)[0] == Materialize(par, [0], h);
    assert MaterializeSlots(tree, [], h) == [Element("p", map[], cs)];
  }

  lemma TwoCreditedCorrectedHeap(a: string, b: string, u: string, w: string)
    requires a != [] && b != [] && IsCommentCredit(u) && IsCommentCredit(w)
    ensures CorrectedHeap(TwoCredited(a, b, u, w), false) ==
      map[[0] := [New(Figure(CreditedImg(a).properties, a)), New(Figure(CreditedImg(b).properties, b))]]
  {
    var tree := TwoCredited(a, b, u, w);
    var figA := Figure(CreditedImg(a).properties, a);
    var figB := Figure(CreditedImg(b).properties, b);
    TwoCreditedRemovals(a, b, u, w);
    TwoCreditedReplacements(a, b, u, w, false);
    var s0 := [Orig(0), Orig(1), Orig(2), Orig(3)];
    assert Array(tree, map[], [0]) == s0;
    AssignTwoZero(tree, map[], s0, figA, figB);
    var s2 := [New(figA), Orig(1), New(figB), Orig(3)];
    assert Assign(s0, 2, New(figB))[0 := New(figA)] == s2;
    var g := map[[0] := s2];
    assert map[][[0] := s2] == g;
    SpliceThreeOne(tree, g, s2);
    assert g[[0] := [s2[0], s2[2]]] == map[[0] := [New(figA), New(figB)]];
  }

  /** With the replacements made first, both images are wrapped and both comments go. */
  lemma BothWrapped(a: string, b: string, u: string, w: string)
    requires a != [] && b != [] && IsCommentCredit(u) && IsCommentCredit(w)
    ensures Corrected(TwoCredited(a, b, u, w), false) ==
      Root([Element("p", map[], [Figure(CreditedImg(a).properties, a), Figure(CreditedImg(b).properties, b)])])
  {
    var tree := TwoCredited(a, b, u, w);
    var par := tree.children[0];
    var figA := Figure(CreditedImg(a).properties, a);
    var figB := Figure(CreditedImg(b).properties, b);
    TwoCreditedCorrectedHeap(a, b, u, w);
    MaterializeOneParagraph(tree, [New(figA), New(figB)], [figA, figB]);
  }

  /** `p[img(a)]` followed by its credit comment, under the root. */
  function CaptionedParagraph(a: string, u: string): HNode
  {
    Root([Element("p", map[], [CreditedImg(a)]), Literal("comment", u)])
  }

  lemma CaptionedParagraphRemovals(a: string, u: string)
    requires a != [] && IsCommentCredit(u)
    ensures Removals(CaptionedParagraph(a, u)) == [Removal([], 1)]
  {
    var tree := CaptionedParagraph(a, u);
    var par := tree.children[0];
    var rf := RemovalFinder();
    CollectLeaf(rf, par.children[0], [0] + [0]);
    CollectLeaf(rf, tree.children[1], [] + [1]);
    assert [] + [0] == [0];
    assert CollectFrom(rf, par, [0], 0) == [];
    assert Collect(rf, par, [0]) == [];
    assert ImageBefore(tree, 1) == Some(CreditedImg(a));
    assert CollectFrom(rf, tree, [], 1) == [Removal([], 1)];
    assert CollectFrom(rf, tree, [], 0) == [Removal([], 1)];
    assert Collect(rf, tree, []) == CollectFrom(rf, tree, [], 0);
  }

  /** The record for an image alone in a paragraph that is the root's first child. */
  lemma SoleImageRecord(a: string, linked: bool)
    ensures ReplacementAt(Element("p", map[], [CreditedImg(a)]), [0], 0, linked) ==
      Some(if linked then Replacement([], 0, Figure(CreditedImg(a).properties, a))
           else Replacement([0], 0, Figure(CreditedImg(a).properties, a)))
  {
    var par := Element("p", map[], [CreditedImg(a)]);
    assert Wrappable(par, 0);
    assert Collapses(par, [0], linked) <==> linked;
    assert [0][..0] == [] && [0][0] == 0;
  }

  lemma CaptionedParagraphReplacements(a: string, u: string, linked: bool)
    ensures Replacements(CaptionedParagraph(a, u), linked) ==
      [if linked then Replacement([], 0, Figure(CreditedImg(a).properties, a))
       else Replacement([0], 0, Figure(CreditedImg(a).properties, a))]
  {
    var tree := CaptionedParagraph(a, u);
    var par := tree.children[0];
    var qf := ReplacementFinder(linked);
    var fig := Figure(CreditedImg(a).properties, a);
    CollectLeaf(qf, par.children[0], [0] + [0]);
    CollectLeaf(qf, tree.children[1], [] + [1]);
    assert [] + [0] == [0];
    var q := if linked then Replacement([], 0, fig) else Replacement([0], 0, fig);
    SoleImageRecord(a, linked);
    assert qf(par, [0], 0) == Some(q);
    assert CollectFrom(qf, par, [0], 0) == [q];
    assert Collect(qf, par, [0]) == [q];
    assert CollectFrom(qf, tree, [], 1) == [];
    assert CollectFrom(qf, tree, [], 0) == [q];
    assert Collect(qf, tree, []) == CollectFrom(qf, tree, [], 0);
  }

  /** The common case: the comment goes, and the figure replaces the image inside the
      paragraph, or the paragraph itself when nodes know their parent. */
  lemma CaptionedParagraphWrapped(a: string, u: string, linked: bool)
    requires a != [] && IsCommentCredit(u)
    ensures AsWritten(CaptionedParagraph(a, u), linked) ==
      var fig := Figure(CreditedImg(a).properties, a);
      if linked then Root([fig]) else Root([Element("p", map[], [fig])])
  {
    var tree := CaptionedParagraph(a, u);
    var par := tree.children[0];
    var fig := Figure(CreditedImg(a).properties, a);
    CaptionedParagraphRemovals(a, u);
    CaptionedParagraphReplacements(a, u, linked);
    var rs := Removals(tree);
    var qs := Replacements(tree, linked);
    assert rs[1..] == [] && qs[1..] == [];
    assert Array(tree, map[], []) == [Orig(0), Orig(1)];
    assert Splice([Orig(0), Orig(1)], 1) == [Orig(0)];
    var h1 := map[[] := [Orig(0)]];
    assert RemoveAll(tree, map[], rs) == ApplyRemoval(tree, map[], Removal([], 1)) == h1;
    assert [] + [0] == [0];
    assert ReplaceAll(tree, h1, qs[1..]) == h1;
    assert AsWrittenHeap(tree, linked) == ReplaceAll(tree, h1, qs) == ApplyReplacement(tree, h1, qs[0]);
    if linked {
      var h2 := map[[] := [New(fig)]];
      assert Array(tree, h1, []) == [Orig(0)];
      assert Assign([Orig(0)], 0, New(fig)) == [New(fig)];
      assert AsWrittenHeap(tree, linked) == h2;
      assert MaterializeSlots(tree, [], h2) == [fig];
    } else {
      var h2 := map[[] := [Orig(0)], [0] := [New(fig)]];
      assert Array(tree, h1, [0]) == [Orig(0)];
      assert Assign([Orig(0)], 0, New(fig)) == [New(fig)];
      assert AsWrittenHeap(tree, linked) == h2;
      assert MaterializeSlots(par, [0], h2) == [fig];
      assert Materialize(par, [0], h2) == Element("p", map[], [fig]);
      assert MaterializeSlots(tree, [], h2) == [Element("p", map[], [fig])];
    }
  }

  // ---- The transformer, step by step ----

  lemma CollectFromStep<T>(f: Finder<T>, n: HNode, p: Path, i: nat)
    requires HasChildren(n) && i < |n.children|
    ensures CollectFrom(f, n, p, i) == AsSeq(f(n, p, i)) + Collect(f, n.children[i], p + [i]) + CollectFrom(f, n, p, i + 1)
  {
  }

  lemma SeqAssoc<T>(a: seq<T>, b: seq<T>, c: seq<T>, d: seq<T>)
    ensures a + b + c + d == a + (b + c + d)
  {
  }

  /** The state of one run of the transformer: the two worklists the visit fills and
      the children arrays of the tree it rewrites. */
  class CreditPass {
    const root: HNode
    const linked: bool
    var commentsToRemove: seq<Removal>
    var nodesToReplace: seq<Replacement>
    var heap: Heap

    constructor (root: HNode, linked: bool)
      ensures this.root == root && this.linked == linked
      ensures commentsToRemove == [] && nodesToReplace == [] && heap == map[]
    {
      this.root := root;
      this.linked := linked;
      commentsToRemove := [];
      nodesToReplace := [];
      heap := map[];
    }

    /** The visit callback on the child at `i` of `n`, which sits at `p`. */
    method Record(n: HNode, p: Path, i: nat)
      modifies this
      ensures commentsToRemove == old(commentsToRemove) + AsSeq(RemovalFinder()(n, p, i))
      ensures nodesToReplace == old(nodesToReplace) + AsSeq(ReplacementFinder(linked)(n, p, i))
      ensures heap == old(heap)
    {
      var removal := RemovalFor(n, p, i);
      if removal.Some? {
        commentsToRemove := commentsToRemove + [removal.value];
      }
      var replacement := ReplacementAt(n, p, i, linked);
      if replacement.Some? {
        nodesToReplace := nodesToReplace + [replacement.value];
      }
    }

    /** `visit` below `n`, which sits at `p`: the callback on each child with its index
        and parent, then the walk into that child. */
    method Visit(n: HNode, p: Path)
      modifies this
      ensures commentsToRemove == old(commentsToRemove) + Collect(RemovalFinder(), n, p)
      ensures nodesToReplace == old(nodesToReplace) + Collect(ReplacementFinder(linked), n, p)
      ensures heap == old(heap)
      decreases n
    {
      var rf := RemovalFinder();
      var qf := ReplacementFinder(linked);
      if !HasChildren(n) {
        return;
      }
      var i := 0;
      while i < |n.children|
        invariant i <= |n.children|
        invariant commentsToRemove + CollectFrom(rf, n, p, i) == old(commentsToRemove) + Collect(rf, n, p)
        invariant nodesToReplace + CollectFrom(qf, n, p, i) == old(nodesToReplace) + Collect(qf, n, p)
        invariant heap == old(heap)
      {
        CollectFromStep(rf, n, p, i);
        CollectFromStep(qf, n, p, i);
        ghost var rs0, qs0 := commentsToRemove, nodesToReplace;
        Record(n, p, i);
        Visit(n.children[i], p + [i]);
        SeqAssoc(rs0, AsSeq(rf(n, p, i)), Collect(rf, n.children[i], p + [i]), CollectFrom(rf, n, p, i + 1));
        SeqAssoc(qs0, AsSeq(qf(n, p, i)), Collect(qf, n.children[i], p + [i]), CollectFrom(qf, n, p, i + 1));
        i := i + 1;
      }
    }

    /** The first countdown loop: each recorded comment spliced out of its parent's
        array, from the last record to the first. */
    method RemoveComments()
      modifies this
      ensures heap == RemoveAll(root, old(heap), commentsToRemove)
      ensures commentsToRemove == old(commentsToRemove) && nodesToReplace == old(nodesToReplace)
    {
      var i := |commentsToRemove|;
      while i > 0
        invariant 0 <= i <= |commentsToRemove|
        invariant heap == RemoveAll(root, old(heap), commentsToRemove[i..])
        invariant commentsToRemove == old(commentsToRemove) && nodesToReplace == old(nodesToReplace)
      {
        i := i - 1;
        var r := commentsToRemove[i];
        assert commentsToRemove[i..][1..] == commentsToRemove[i + 1..];
        heap := heap[r.parent := Splice(Array(root, heap, r.parent), r.index)];
      }
    }

    /** The second countdown loop: each new node assigned into its recorded slot, from
        the last record to the first. */
    method ReplaceNodes()
      modifies this
      ensures heap == ReplaceAll(root, old(heap), nodesToReplace)
      ensures commentsToRemove == old(commentsToRemove) && nodesToReplace == old(nodesToReplace)
    {
      var i := |nodesToReplace|;
      while i > 0
        invariant 0 <= i <= |nodesToReplace|
        invariant heap == ReplaceAll(root, old(heap), nodesToReplace[i..])
        invariant commentsToRemove == old(commentsToRemove) && nodesToReplace == old(nodesToReplace)
      {
        i := i - 1;
        var q := nodesToReplace[i];
        assert nodesToReplace[i..][1..] == nodesToReplace[i + 1..];
        heap := heap[q.parent := Assign(Array(root, heap, q.parent), q.index, New(q.newNode))];
      }
    }
  }

  /** The transformer `rehypeImageCredits()` returns, applied to a tree. */
  method Transform(tree: HTree, linked: bool)
    modifies tree
    ensures tree.root == AsWritten(old(tree.root), linked)
  {
    var pass := new CreditPass(tree.root, linked);
    pass.Visit(tree.root, []);
    assert pass.commentsToRemove == Removals(tree.root);
    assert pass.nodesToReplace == Replacements(tree.root, linked);
    pass.RemoveComments();
    pass.ReplaceNodes();
    tree.root := Materialize(tree.root, [], pass.heap);
  }

  /** The transformer with its two loops swapped, so that every figure is assigned
      before any comment is spliced out. */
  method TransformCorrected(tree: HTree, linked: bool)
    modifies tree
    ensures tree.root == Corrected(old(tree.root), linked)
  {
    var pass := new CreditPass(tree.root, linked);
    pass.Visit(tree.root, []);
    assert pass.commentsToRemove == Removals(tree.root);
    assert pass.nodesToReplace == Replacements(tree.root, linked);
    pass.ReplaceNodes();
    pass.RemoveComments();
    tree.root := Materialize(tree.root, [], pass.heap);
  }
}
