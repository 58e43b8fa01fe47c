/** `remarkImageCredits`: every `html` node holding a credit comment hands its credit to
    the image just before it (the previous sibling itself, or the first image inside a
    previous paragraph), as the `data-credit` entry of the image's `hProperties`. No
    node is added, removed or moved. */
module RemarkCredits {
  import opened Lists
  import opened Text
  import opened CreditPatterns
  import opened Mdast

  /** The `hProperties` key that carries a credit on to the HTML tree. */
  const CreditKey: string := "data-credit"

  /** The callback's test: an `html` node whose value is a string matching
      `/<!--\s*credit:\s*(.+?)\s*-->/i`; the credit is the capture, trimmed. */
  function CommentCredit(n: MdNode): (r: Option<string>)
    ensures r.Some? <==> n.kind == "html" && n.value.Some? && exists p: nat :: HtmlMatchesAt(n.value.value, p)
    ensures r.Some? ==> r.value == [] || (!IsSpace(r.value[0]) && !IsSpace(r.value[|r.value| - 1]))
    ensures r.Some? ==>
              n.value.Some? && HtmlCreditCapture(n.value.value).Some? &&
              r.value == Trim(HtmlCreditCapture(n.value.value).value)
  {
    if n.kind == "html" && n.value.Some? then
      HtmlCreditMatchIff(n.value.value);
      match HtmlCreditCapture(n.value.value)
      case Some(c) => Some(Trim(c))
      case None => None
    else None
  }

  /** The position of the first image among `cs[i..]`. */
  function FirstImageFrom(cs: seq<MdNode>, i: nat): (r: Option<nat>)
    requires i <= |cs|
    ensures r.Some? ==> i <= r.value < |cs| && cs[r.value].kind == "image"
    ensures r.Some? ==> forall j :: i <= j < r.value ==> cs[j].kind != "image"
    ensures r.None? ==> forall j :: i <= j < |cs| ==> cs[j].kind != "image"
    decreases |cs| - i
  {
    if i == |cs| then None
    else if cs[i].kind == "image" then Some(i)
    else FirstImageFrom(cs, i + 1)
  }

  function FirstImage(cs: seq<MdNode>): Option<nat>
  {
    FirstImageFrom(cs, 0)
  }

  /** The `for ... of` loop over a paragraph's children that stops at the first image. */
  method FindFirstImage(cs: seq<MdNode>) returns (k: Option<nat>)
    ensures k == FirstImage(cs)
  {
    k := None;
    for i := 0 to |cs|
      invariant k.None? && forall j :: 0 <= j < i ==> cs[j].kind != "image"
    {
      if cs[i].kind == "image" {
        k := Some(i);
        break;
      }
    }
  }

  /** Writing `hProperties["data-credit"]` on an image. */
  function SetCredit(m: MdNode, c: string): (r: MdNode)
    ensures r.(data := m.data) == m
    ensures Property(r.data, CreditKey) == Some(c)
    ensures forall k :: k != CreditKey ==> Property(r.data, k) == Property(m.data, k)
  {
    m.(data := Some(SetProperty(m.data, CreditKey, c)))
  }

  /** The effect of a credit comment on its previous sibling `prev`. */
  function Receive(prev: MdNode, credit: Option<string>): MdNode
  {
    match credit
    case None => prev
    case Some(c) =>
      if prev.kind == "image" then SetCredit(prev, c)
      else if prev.kind == "paragraph" then
        match FirstImage(prev.children)
        case Some(k) => prev.(children := prev.children[k := SetCredit(prev.children[k], c)])
        case None => prev
      else prev
  }

  /** The credit that the sibling after position `j` hands back to position `j`. */
  function NextCredit(cs: seq<MdNode>, j: nat): Option<string>
  {
    if j + 1 < |cs| then CommentCredit(cs[j + 1]) else None
  }

  /** The pass below `n`. The walk visits the children in order; each child's own
      subtree is done before the comment after it writes into it, so the later write
      wins when both touch the same image. `n` itself keeps its data. */
  function CreditTree(n: MdNode): (r: MdNode)
    ensures r.(children := n.children) == n && |r.children| == |n.children|
  {
    n.(children := seq(|n.children|, j requires 0 <= j < |n.children| =>
                         Receive(CreditTree(n.children[j]), NextCredit(n.children, j))))
  }

  /** `m'` differs from `m` only in the `data-credit` property of image nodes: same types,
      urls, values and children everywhere, and every other property kept. */
  ghost predicate OnlyCredits(m: MdNode, m': MdNode)
  {
    m'.(data := m.data, children := m.children) == m
    && (m.kind != "image" ==> m'.data == m.data)
    && (forall k :: k != CreditKey ==> Property(m'.data, k) == Property(m.data, k))
    && |m'.children| == |m.children|
    && forall i :: 0 <= i < |m.children| ==> OnlyCredits(m.children[i], m'.children[i])
  }

  lemma {:induction false} OnlyCreditsReflexive(m: MdNode)
    ensures OnlyCredits(m, m)
  {
    forall i | 0 <= i < |m.children| {
      OnlyCreditsReflexive(m.children[i]);
    }
  }

  lemma {:induction false} OnlyCreditsTransitive(a: MdNode, b: MdNode, c: MdNode)
    requires OnlyCredits(a, b) && OnlyCredits(b, c)
    ensures OnlyCredits(a, c)
  {
    forall i | 0 <= i < |a.children| {
      OnlyCreditsTransitive(a.children[i], b.children[i], c.children[i]);
    }
  }

  lemma SetCreditOnlyCredits(m: MdNode, c: string)
    requires m.kind == "image"
    ensures OnlyCredits(m, SetCredit(m, c))
  {
    OnlyCreditsReflexive(m);
  }

  lemma ReceiveOnlyCredits(prev: MdNode, credit: Option<string>)
    ensures OnlyCredits(prev, Receive(prev, credit))
  {
    OnlyCreditsReflexive(prev);
    if credit.Some? && prev.kind == "paragraph" && FirstImage(prev.children).Some? {
      var k := FirstImage(prev.children).value;
      SetCreditOnlyCredits(prev.children[k], credit.value);
      forall i | 0 <= i < |prev.children|
        ensures OnlyCredits(prev.children[i], Receive(prev, credit).children[i])
      {
        if i != k {
          OnlyCreditsReflexive(prev.children[i]);
        }
      }
    }
  }

  /** The pass writes nothing but `data-credit` on images: no node is added, removed or
      moved, and comments and every other node are left as they were. */
  lemma {:induction false} CreditTreeOnlyCredits(n: MdNode)
    ensures OnlyCredits(n, CreditTree(n))
  {
    var r := CreditTree(n);
    forall j | 0 <= j < |n.children|
      ensures OnlyCredits(n.children[j], r.children[j])
    {
      CreditTreeOnlyCredits(n.children[j]);
      ReceiveOnlyCredits(CreditTree(n.children[j]), NextCredit(n.children, j));
      OnlyCreditsTransitive(n.children[j], CreditTree(n.children[j]), r.children[j]);
    }
    OnlyCreditsReflexive(n);
  }

  /** An image followed by a credit comment carries that credit. */
  lemma ImageGetsCredit(n: MdNode, j: nat, c: string)
    requires j + 1 < |n.children| && n.children[j].kind == "image"
    requires CommentCredit(n.children[j + 1]) == Some(c)
    ensures Property(CreditTree(n).children[j].data, CreditKey) == Some(c)
  {
  }

  /** A paragraph followed by a credit comment passes the credit to its first image
      child, whatever credit a comment inside the paragraph gave that image before. */
  lemma ParagraphImageGetsCredit(n: MdNode, j: nat, c: string)
    requires j + 1 < |n.children| && n.children[j].kind == "paragraph"
    requires CommentCredit(n.children[j + 1]) == Some(c)
    ensures FirstImage(n.children[j].children).Some? ==>
      var k := FirstImage(n.children[j].children).value;
      Property(CreditTree(n).children[j].children[k].data, CreditKey) == Some(c)
    ensures FirstImage(n.children[j].children).None? ==>
      CreditTree(n).children[j] == CreditTree(n.children[j])
  {
    var p := n.children[j];
    var q := CreditTree(p);
    assert q.children == seq(|p.children|, i requires 0 <= i < |p.children| =>
                               Receive(CreditTree(p.children[i]), NextCredit(p.children, i)));
    assert forall i :: 0 <= i < |p.children| ==> q.children[i].kind == p.children[i].kind;
    assert FirstImage(q.children) == FirstImage(p.children) by {
      FirstImageSameKinds(p.children, q.children, 0);
    }
  }

  lemma {:induction false} FirstImageSameKinds(cs: seq<MdNode>, ds: seq<MdNode>, i: nat)
    requires i <= |cs| == |ds|
    requires forall j :: 0 <= j < |cs| ==> ds[j].kind == cs[j].kind
    ensures FirstImageFrom(ds, i) == FirstImageFrom(cs, i)
    decreases |cs| - i
  {
    if i < |cs| {
      FirstImageSameKinds(cs, ds, i + 1);
    }
  }

  /** A node that is neither an image nor a paragraph, a node not followed by a credit
      comment, and a comment at position 0 credit nothing. */
  lemma NoTargetNoCredit(n: MdNode, j: nat)
    requires j < |n.children|
    requires NextCredit(n.children, j).None? || (n.children[j].kind != "image" && n.children[j].kind != "paragraph")
    ensures CreditTree(n).children[j] == CreditTree(n.children[j])
  {
  }

  /** A child of the result, as `CreditTree` builds it. */
  lemma CreditTreeChild(n: MdNode, j: nat)
    requires j < |n.children|
    ensures CreditTree(n).children[j] == Receive(CreditTree(n.children[j]), NextCredit(n.children, j))
  {
  }

  /** The callback on the `html` child at `i`, writing into the child before it. */
  method Callback(cs: seq<MdNode>, i: nat) returns (cs': seq<MdNode>)
    requires 0 < i < |cs|
    ensures cs' == cs[i - 1 := Receive(cs[i - 1], CommentCredit(cs[i]))]
  {
    cs' := cs;
    var credit := CommentCredit(cs[i]);
    if credit.Some? {
      var prev := cs[i - 1];
      if prev.kind == "image" {
        cs' := cs[i - 1 := SetCredit(prev, credit.value)];
      } else if prev.kind == "paragraph" {
        var k := FindFirstImage(prev.children);
        if k.Some? {
          cs' := cs[i - 1 := prev.(children := prev.children[k.value := SetCredit(prev.children[k.value], credit.value)])];
        }
      }
    }
  }

  /** The visit over `n`'s subtree: the callback on each `html` child with its index,
      then the walk into that child. */
  method Walk(n: MdNode) returns (r: MdNode)
    ensures r == CreditTree(n)
    decreases n
  {
    var cs := n.children;
    var i := 0;
    while i < |cs|
      invariant i <= |cs| == |n.children|
      invariant forall j :: 0 <= j < i - 1 ==> cs[j] == CreditTree(n).children[j]
      invariant i > 0 ==> cs[i - 1] == CreditTree(n.children[i - 1])
      invariant forall j :: i <= j < |cs| ==> cs[j] == n.children[j]
    {
      if i > 0 {
        cs := Callback(cs, i);
        CreditTreeChild(n, i - 1);
      }
      var sub := Walk(cs[i]);
      cs := cs[i := sub];
      i := i + 1;
    }
    if i > 0 {
      CreditTreeChild(n, i - 1);
    }
    assert cs == CreditTree(n).children;
    r := n.(children := cs);
  }

  /** The transformer `remarkImageCredits()` returns, applied to a tree. The root is
      visited without a parent, so a root that is itself a credit comment makes the
      source throw. */
  method Transform(tree: Tree)
    requires CommentCredit(tree.root).None?
    modifies tree
    ensures tree.root == CreditTree(old(tree.root))
  {
    tree.root := Walk(tree.root);
  }
}
