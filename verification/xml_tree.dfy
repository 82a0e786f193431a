/** The parsed QSF document as the extraction core sees it: an immutable
    tree of nodes, the element test every handler uses, and the one-level
    child traversal that drives the handlers. */
module XmlTree {

  datatype Option<+T> = None | Some(value: T)

  /** A namespace declaration. `decl` stands for the identity of the
      declaration in the parsed tree (its address); `href` is its URI. Two
      declarations with the same URI are still different namespaces. */
  datatype Namespace = Namespace(decl: nat, href: string)

  datatype NodeKind =
    | ElementNode
    | AttributeNode
    | TextNode
    | CDataNode
    | CommentNode
    | ProcessingInstructionNode
    | OtherNode

  /** A parsed node: its kind, the namespace it was declared in (if any),
      its tag name, its attributes, its children in document order and the
      text content the parser reports for it. */
  datatype Node = Node(
    kind: NodeKind,
    ns: Option<Namespace>,
    name: string,
    attrs: map<string, string>,
    children: seq<Node>,
    content: string)

  /** An attribute lookup; `None` where the parser returns a null pointer. */
  function GetProp(n: Node, attr: string): Option<string>
  {
    if attr in n.attrs then Some(n.attrs[attr]) else None
  }

  /** Namespace identity: the node was declared in exactly this declaration. */
  predicate SameDeclaration(nodeNs: Option<Namespace>, target: Namespace)
  {
    nodeNs.Some? && nodeNs.value.decl == target.decl
  }

  /** `qsf_is_element`: a missing node, namespace or tag never matches;
      otherwise the node must be an element of the very same namespace
      declaration with exactly the given name. */
  function IsElement(a: Option<Node>, ns: Option<Namespace>, tag: Option<string>): (r: bool)
    ensures r <==>
      && a.Some? && ns.Some? && tag.Some?
      && a.value.kind == ElementNode
      && a.value.ns.Some?
      && a.value.ns.value.decl == ns.value.decl
      && a.value.name == tag.value
  {
    if a.None? || ns.None? || tag.None? then false
    else SameDeclaration(a.value.ns, ns.value) && a.value.kind == ElementNode && a.value.name == tag.value
  }

  /** Two declarations of one URI are different namespaces: a node of one
      never matches a tag of the other. */
  lemma NamespaceIsIdentityNotUri(a: Node, declared: Namespace, other: Namespace, tag: string)
    requires a.ns == Some(declared)
    requires declared.href == other.href && declared.decl != other.decl
    ensures !IsElement(Some(a), Some(other), Some(tag))
  {
  }

  /** A node matches at most one tag: no two tag tests both accept it. */
  lemma ElementHasOneTag(a: Node, ns: Option<Namespace>, t1: string, t2: string)
    requires IsElement(Some(a), ns, Some(t1)) && IsElement(Some(a), ns, Some(t2))
    ensures t1 == t2
  {
  }

  /** The test looks at declarations only: renaming the URI of the node's
      declaration, of the target, or of both, changes no answer. */
  lemma MatchIgnoresUri(a: Node, target: Namespace, tag: string, nodeHref: string, targetHref: string)
    requires a.ns.Some?
    ensures IsElement(Some(a.(ns := Some(a.ns.value.(href := nodeHref)))), Some(target.(href := targetHref)), Some(tag))
            == IsElement(Some(a), Some(target), Some(tag))
  {
  }

  /** The callback's requirements hold for every child and every state. */
  ghost predicate Accepts<S(!new)>(cb: (Node, Option<Namespace>, S) --> S, children: seq<Node>, ns: Option<Namespace>)
  {
    forall i, s :: 0 <= i < |children| ==> cb.requires(children[i], ns, s)
  }

  /** `qsf_valid_foreach` / `qsf_node_foreach`: the callback is applied to
      every immediate child of a parent, in document order, with the
      iteration's namespace, threading the callback's state through. */
  function Foreach<S(!new)>(children: seq<Node>, ns: Option<Namespace>, cb: (Node, Option<Namespace>, S) --> S, s: S): S
    requires Accepts(cb, children, ns)
    decreases |children|
  {
    if |children| == 0 then s
    else
      assert Accepts(cb, children[1..], ns) by {
        forall i, x | 0 <= i < |children[1..]|
          ensures cb.requires(children[1..][i], ns, x)
        {
          assert children[1..][i] == children[i + 1];
        }
      }
      Foreach(children[1..], ns, cb, cb(children[0], ns, s))
  }

  /** A callback that only records what it is handed. */
  function Record(child: Node, ns: Option<Namespace>, log: seq<(Node, Option<Namespace>)>): seq<(Node, Option<Namespace>)>
  {
    log + [(child, ns)]
  }

  /** The traversal hands over every child, once, in document order, with no
      filtering, and always with the iteration's namespace. */
  lemma {:induction false} ForeachVisitsEveryChild(children: seq<Node>, ns: Option<Namespace>, log: seq<(Node, Option<Namespace>)>)
    ensures Foreach(children, ns, Record, log) ==
            log + seq(|children|, i requires 0 <= i < |children| => (children[i], ns))
    decreases |children|
  {
    if |children| > 0 {
      ForeachVisitsEveryChild(children[1..], ns, log + [(children[0], ns)]);
      var rest := seq(|children[1..]|, i requires 0 <= i < |children[1..]| => (children[1..][i], ns));
      var all := seq(|children|, i requires 0 <= i < |children| => (children[i], ns));
      assert all == [(children[0], ns)] + rest;
    }
  }

  /** The first step of the traversal. */
  lemma ForeachUncons<S(!new)>(children: seq<Node>, ns: Option<Namespace>, cb: (Node, Option<Namespace>, S) --> S, s: S)
    requires |children| > 0 && Accepts(cb, children, ns)
    ensures Accepts(cb, children[1..], ns)
    ensures cb.requires(children[0], ns, s)
    ensures Foreach(children, ns, cb, s) == Foreach(children[1..], ns, cb, cb(children[0], ns, s))
  {
    assert forall i :: 0 <= i < |children[1..]| ==> children[1..][i] == children[i + 1];
  }

  /** Traversing one more child is one more callback on the state reached so far. */
  lemma {:induction false} ForeachSnoc<S(!new)>(children: seq<Node>, last: Node, ns: Option<Namespace>, cb: (Node, Option<Namespace>, S) --> S, s: S)
    requires Accepts(cb, children + [last], ns)
    ensures Accepts(cb, children, ns)
    ensures forall x :: cb.requires(last, ns, x)
    ensures Foreach(children + [last], ns, cb, s) == cb(last, ns, Foreach(children, ns, cb, s))
    decreases |children|
  {
    assert forall i, x | 0 <= i < |children| :: cb.requires(children[i], ns, x) by {
      forall i, x | 0 <= i < |children| ensures cb.requires(children[i], ns, x) {
        assert (children + [last])[i] == children[i];
      }
    }
    forall x ensures cb.requires(last, ns, x) {
      assert (children + [last])[|children|] == last;
    }
    if |children| > 0 {
      var all := children + [last];
      assert all[1..] == children[1..] + [last];
      assert all[0] == children[0];
      ForeachSnoc(children[1..], last, ns, cb, cb(children[0], ns, s));
    }
  }
}
