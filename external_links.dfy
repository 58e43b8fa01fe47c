/** `remarkExternalLinks`: a pre-order walk over the mdast tree that marks every link
    leaving the site so that it opens in a new tab without a referrer. */
module ExternalLinks {
  import opened Lists
  import opened Text
  import opened Mdast

  /** The site's own domain, which never counts as external. */
  const OwnDomain: string := "rajendrasinh.com"

  const TargetKey: string := "target"
  const TargetValue: string := "_blank"
  const RelKey: string := "rel"
  const RelValue: string := "noopener noreferrer"

  /** `isExternal && isNotSameDomain`: a non-empty url that starts with `http://`,
      `https://` or `//` and does not contain the own domain. */
  predicate IsExternal(url: Option<string>)
  {
    url.Some? && url.value != []
    && (StartsAt(url.value, 0, "http://") || StartsAt(url.value, 0, "https://")
        || StartsAt(url.value, 0, "//"))
    && FindFrom(url.value, 0, OwnDomain).None?
  }

  /** `String.prototype.startsWith`. */
  ghost predicate HasPrefix(u: string, p: string)
  {
    |p| <= |u| && u[..|p|] == p
  }

  ghost predicate OccursAt(u: string, k: nat, w: string)
  {
    k + |w| <= |u| && u[k..k + |w|] == w
  }

  /** `String.prototype.includes`. */
  ghost predicate Contains(u: string, w: string)
  {
    exists k: nat :: OccursAt(u, k, w)
  }

  lemma StartsAtIsPrefix(u: string, p: string)
    ensures StartsAt(u, 0, p) <==> HasPrefix(u, p)
  {
    StartsAtSlice(u, 0, p);
  }

  lemma FindFromIsContains(u: string, w: string)
    requires |w| > 0
    ensures FindFrom(u, 0, w).None? <==> !Contains(u, w)
  {
    FindFromFirst(u, 0, w);
    if Contains(u, w) {
      var k: nat :| OccursAt(u, k, w);
      StartsAtSlice(u, k, w);
    }
    if FindFrom(u, 0, w).Some? {
      var k := FindFrom(u, 0, w).value;
      StartsAtSlice(u, k, w);
      assert OccursAt(u, k, w);
    }
  }

  /** The classification in the terms of the string methods the source calls. */
  lemma IsExternalIff(url: Option<string>)
    ensures IsExternal(url) <==>
      url.Some? && url.value != []
      && (HasPrefix(url.value, "http://") || HasPrefix(url.value, "https://") || HasPrefix(url.value, "//"))
      && !Contains(url.value, OwnDomain)
  {
    if url.Some? {
      StartsAtIsPrefix(url.value, "http://");
      StartsAtIsPrefix(url.value, "https://");
      StartsAtIsPrefix(url.value, "//");
      FindFromIsContains(url.value, OwnDomain);
    }
  }

  /** A url whose first character is neither `h` nor `/` (a `mailto:` link, a fragment)
      or that starts with a single `/` (a site-relative path) is not external. */
  lemma RelativeIsNotExternal(u: string)
    requires u == [] || (u[0] != 'h' && u[0] != '/') || (|u| >= 2 && u[0] == '/' && u[1] != '/')
    ensures !IsExternal(Some(u))
  {
  }

  predicate Marked(n: MdNode)
  {
    n.kind == "link" && IsExternal(n.url)
  }

  /** The visit callback: an external link gets `target` and `rel` in its
      `hProperties`; every other node, and everything but the link's metadata, is left
      as it was. */
  function Annotate(n: MdNode): (r: MdNode)
    ensures r.(data := n.data) == n
    ensures Marked(n) ==>
      Property(r.data, TargetKey) == Some(TargetValue) && Property(r.data, RelKey) == Some(RelValue)
      && forall k :: k != TargetKey && k != RelKey ==> Property(r.data, k) == Property(n.data, k)
    ensures !Marked(n) ==> r == n
  {
    if Marked(n) then
      n.(data := Some(SetProperty(Some(SetProperty(n.data, TargetKey, TargetValue)), RelKey, RelValue)))
    else n
  }

  /** `visit(tree, callback)`: the callback on the node, then the walk into each child. */
  function AnnotateTree(n: MdNode): (r: MdNode)
    ensures |r.children| == |n.children|
  {
    Annotate(n).(children := seq(|n.children|, i requires 0 <= i < |n.children| => AnnotateTree(n.children[i])))
  }

  /** Every node at every depth is visited: the node at each path of the result is
      the input's node at that path, annotated by the callback. */
  lemma {:induction false} AnnotateTreeAt(n: MdNode, p: seq<nat>)
    ensures At(AnnotateTree(n), p).Some? <==> At(n, p).Some?
    ensures At(n, p).Some? ==> Top(At(AnnotateTree(n), p).value) == Top(Annotate(At(n, p).value))
    decreases |p|
  {
    if p != [] && p[0] < |n.children| {
      AnnotateTreeAt(n.children[p[0]], p[1..]);
    }
  }

  /** Types, urls, values and the children sequences are untouched: only `data` changes. */
  lemma {:induction false} AnnotateTreeKeepsShape(n: MdNode)
    ensures Shape(AnnotateTree(n)) == Shape(n)
  {
    forall i | 0 <= i < |n.children| {
      AnnotateTreeKeepsShape(n.children[i]);
    }
    assert Shape(AnnotateTree(n)).children == Shape(n).children;
  }

  lemma AnnotateAgain(n: MdNode)
    ensures Annotate(Annotate(n)) == Annotate(n)
  {
    if Marked(n) {
      var d1 := SetProperty(n.data, TargetKey, TargetValue);
      var d2 := SetProperty(Some(d1), RelKey, RelValue);
      var p2 := d2.hProperties.value;
      assert p2[TargetKey := TargetValue] == p2;
      assert p2[TargetKey := TargetValue][RelKey := RelValue] == p2;
    }
  }

  /** Running the pass a second time changes nothing. */
  lemma {:induction false} AnnotateTreeIdempotent(n: MdNode)
    ensures AnnotateTree(AnnotateTree(n)) == AnnotateTree(n)
  {
    AnnotateAgain(n);
    forall i | 0 <= i < |n.children| {
      AnnotateTreeIdempotent(n.children[i]);
    }
    assert AnnotateTree(AnnotateTree(n)).children == AnnotateTree(n).children;
  }

  /** The hand-written walker: the callback on `n`, then each child in turn. */
  method Walk(n: MdNode) returns (r: MdNode)
    ensures r == AnnotateTree(n)
    decreases n
  {
    r := Annotate(n);
    var children: seq<MdNode> := [];
    var i := 0;
    while i < |n.children|
      invariant i <= |n.children| && |children| == i
      invariant forall j :: 0 <= j < i ==> children[j] == AnnotateTree(n.children[j])
    {
      var c := Walk(n.children[i]);
      children := children + [c];
      i := i + 1;
    }
    r := r.(children := children);
  }

  /** The transformer `remarkExternalLinks()` returns, applied to a tree. */
  method Transform(tree: Tree)
    modifies tree
    ensures tree.root == AnnotateTree(old(tree.root))
  {
    tree.root := Walk(tree.root);
  }
}
