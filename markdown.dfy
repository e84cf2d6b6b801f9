/**
 * The Markdown transformer's tree walk. A parsed document is a tree of
 * nodes whose values live in an arena; the walk visits every node in
 * pre-order and overwrites the value of each fenced code block it can
 * highlight with an HTML block holding the highlighted code.
 */
module Markdown {
  import opened Wrappers
  import opened Utf8
  import opened Highlight

  /** The node kinds the walk tells apart; every other kind of node is `Other`. */
  datatype NodeValue =
    | CodeBlock(fenced: bool, info: seq<byte>, literal: seq<byte>)
    | HtmlBlock(blockType: nat, literal: seq<byte>)
    | Other(kind: string)

  /** A document tree as the serializer sees it: values with their children in order. */
  datatype Node = Node(value: NodeValue, children: seq<Node>)

  /** A fenced code block with text info and literal whose info names a grammar. */
  predicate Eligible(h: Highlighter, v: NodeValue) {
    && v.CodeBlock? && v.fenced
    && Decode(v.info).Some? && Decode(v.literal).Some?
    && h.hasSyntax(Decode(v.info).value)
  }

  /** The value the walk's closure computes for a node, if it replaces it (`new_val`). */
  function Replacement(h: Highlighter, v: NodeValue): Option<NodeValue> {
    match v
    case CodeBlock(true, info, literal) =>
      (match (Decode(info), Decode(literal))
       case (Some(i), Some(l)) =>
         (match SyntaxHighlightHtml(h, i, l)
          case Some(html) => Some(HtmlBlock(0, Encode(html)))
          case None => None)
       case _ => None)
    case _ => None
  }

  /** The value a node holds once the closure has run on it. */
  function Step(h: Highlighter, v: NodeValue): NodeValue {
    Replacement(h, v).GetOr(v)
  }

  /**
   * The closure changes a node exactly when it is eligible, and then the node
   * becomes an HTML block (default block type) whose literal is the
   * highlighter's output; running it a second time changes nothing.
   */
  lemma StepSpec(h: Highlighter, v: NodeValue)
    ensures Step(h, v) != v <==> Eligible(h, v)
    ensures Eligible(h, v) ==>
      var html := h.highlighted(Decode(v.info).value, Decode(v.literal).value);
      Step(h, v) == HtmlBlock(0, Encode(html)) && Decode(Step(h, v).literal) == Some(html)
    ensures !v.CodeBlock? || !v.fenced ==> Step(h, v) == v
    ensures Step(h, Step(h, v)) == Step(h, v)
  {
    if Eligible(h, v) {
      DecodeEncode(h.highlighted(Decode(v.info).value, Decode(v.literal).value));
    }
  }

  /** What the whole walk does to a tree: the closure applied to every node, shape untouched. */
  function Rewrite(h: Highlighter, n: Node): Node
    decreases n
  {
    Node(Step(h, n.value), seq(|n.children|, i requires 0 <= i < |n.children| => Rewrite(h, n.children[i])))
  }

  /** `p` leads from the root through child indices to a node. */
  predicate ValidPath(n: Node, p: seq<nat>)
    decreases |p|
  {
    p == [] || (p[0] < |n.children| && ValidPath(n.children[p[0]], p[1..]))
  }

  /** The value of the node at `p`. */
  function At(n: Node, p: seq<nat>): NodeValue
    requires ValidPath(n, p)
    decreases |p|
  {
    if p == [] then n.value else At(n.children[p[0]], p[1..])
  }

  /**
   * The rewrite keeps the tree's shape and child order (the same positions
   * exist before and after) and changes each node only through the closure.
   */
  lemma {:induction false} RewriteAt(h: Highlighter, n: Node, p: seq<nat>)
    ensures ValidPath(Rewrite(h, n), p) <==> ValidPath(n, p)
    ensures ValidPath(n, p) ==> At(Rewrite(h, n), p) == Step(h, At(n, p))
    decreases |p|
  {
    if p != [] && p[0] < |n.children| {
      RewriteAt(h, n.children[p[0]], p[1..]);
    }
  }

  /** Rewriting a rewritten tree changes nothing. */
  lemma {:induction false} RewriteIdempotent(h: Highlighter, n: Node)
    ensures Rewrite(h, Rewrite(h, n)) == Rewrite(h, n)
    decreases n
  {
    StepSpec(h, n.value);
    var r := Rewrite(h, n);
    forall i | 0 <= i < |n.children|
      ensures Rewrite(h, r.children[i]) == r.children[i]
    {
      RewriteIdempotent(h, n.children[i]);
    }
  }

  // ---- The arena: node identities, their shape, and their mutable values ----

  type NodeId = nat

  /** The shape of a parsed document: each node's identity and its children in order. */
  datatype Shape = Shape(id: NodeId, kids: seq<Shape>)

  /** Every node of `s` has a value among `keys`. */
  predicate Covered(s: Shape, keys: set<NodeId>) {
    s.id in keys && forall k :: 0 <= k < |s.kids| ==> Covered(s.kids[k], keys)
  }

  /** The tree a shape and the arena's values stand for. */
  function View(s: Shape, values: map<NodeId, NodeValue>): Node
    requires Covered(s, values.Keys)
    decreases s
  {
    Node(values[s.id], seq(|s.kids|, k requires 0 <= k < |s.kids| => View(s.kids[k], values)))
  }

  /** The node identities of `s` in pre-order: a node, then each child's subtree in turn. */
  function PreOrder(s: Shape): seq<NodeId>
    decreases s, 1
  {
    [s.id] + PreOrderKids(s, |s.kids|)
  }

  /** The pre-order of the first `i` children of `s`, one after another. */
  function PreOrderKids(s: Shape, i: nat): seq<NodeId>
    requires i <= |s.kids|
    decreases s, 0, i
  {
    if i == 0 then [] else PreOrderKids(s, i - 1) + PreOrder(s.kids[i - 1])
  }

  lemma {:induction false} PreOrderKidsIncludes(s: Shape, i: nat, k: nat)
    requires k < i <= |s.kids|
    ensures forall x :: x in PreOrder(s.kids[k]) ==> x in PreOrderKids(s, i)
    decreases i
  {
    if k < i - 1 {
      PreOrderKidsIncludes(s, i - 1, k);
    }
  }

  /**
   * When every node of `s` has had the closure applied, the arena shows the
   * rewritten tree.
   */
  lemma {:induction false} ViewAfterWalk(h: Highlighter, s: Shape, before: map<NodeId, NodeValue>, after: map<NodeId, NodeValue>)
    requires Covered(s, before.Keys) && after.Keys == before.Keys
    requires forall id :: id in PreOrder(s) && id in before ==> after[id] == Step(h, before[id])
    ensures View(s, after) == Rewrite(h, View(s, before))
    decreases s
  {
    var va, vb := View(s, after), View(s, before);
    forall k | 0 <= k < |s.kids|
      ensures va.children[k] == Rewrite(h, vb.children[k])
    {
      PreOrderKidsIncludes(s, |s.kids|, k);
      ViewAfterWalk(h, s.kids[k], before, after);
    }
  }

  /** A parsed document: its root's shape and the arena holding every node's value. */
  datatype Parsed = Parsed(root: Shape, values: map<NodeId, NodeValue>)

  type Document = d: Parsed | Covered(d.root, d.values.Keys)
    witness Parsed(Shape(0, []), map[0 := Other("document")])

  /** The arena of a parsed document, whose node values the walk overwrites in place. */
  class Arena {
    var values: map<NodeId, NodeValue>
    /** The nodes the closure has run on, in order. */
    ghost var visited: seq<NodeId>

    constructor (values: map<NodeId, NodeValue>)
      ensures this.values == values && visited == []
    {
      this.values := values;
      visited := [];
    }

    /** The closure: computes `new_val` while the node is borrowed, then stores it. */
    method Visit(h: Highlighter, id: NodeId)
      requires id in values
      modifies this
      ensures values == old(values)[id := Step(h, old(values)[id])]
      ensures visited == old(visited) + [id]
    {
      var newVal := Replacement(h, values[id]);
      if newVal.Some? {
        values := values[id := newVal.value];
      }
      visited := visited + [id];
    }

    /** `iter_nodes`: the closure on `s`, then the walk on each child in order. */
    method IterNodes(h: Highlighter, s: Shape)
      requires Covered(s, values.Keys)
      modifies this
      ensures values.Keys == old(values).Keys
      ensures StepsOver(h, old(values), values, PreOrder(s))
      ensures visited == old(visited) + PreOrder(s)
      decreases s, 1
    {
      Visit(h, s.id);
      StepsOverOne(h, old(values), s.id);
      ghost var mid := values;
      WalkKids(h, s);
      WalkCompose(h, old(values), mid, values, [s.id], PreOrderKids(s, |s.kids|));
    }

    /** The loop of `iter_nodes` over the children of `s`, in order. */
    method WalkKids(h: Highlighter, s: Shape)
      requires Covered(s, values.Keys)
      modifies this
      ensures values.Keys == old(values).Keys
      ensures StepsOver(h, old(values), values, PreOrderKids(s, |s.kids|))
      ensures visited == old(visited) + PreOrderKids(s, |s.kids|)
      decreases s, 0
    {
      for i := 0 to |s.kids|
        invariant values.Keys == old(values).Keys
        invariant StepsOver(h, old(values), values, PreOrderKids(s, i))
        invariant visited == old(visited) + PreOrderKids(s, i)
      {
        ghost var before, done := values, PreOrderKids(s, i);
        IterNodes(h, s.kids[i]);
        WalkCompose(h, old(values), before, values, done, PreOrder(s.kids[i]));
        assert PreOrderKids(s, i + 1) == done + PreOrder(s.kids[i]);
        AppendAssoc(old(visited), done, PreOrder(s.kids[i]));
      }
    }
  }

  /** Associativity of `+`, stated so that the walk's proof of `visited` stays cheap. */
  lemma AppendAssoc(a: seq<NodeId>, b: seq<NodeId>, c: seq<NodeId>)
    ensures (a + b) + c == a + (b + c)
  {
  }

  /** `cur` is `orig` with the closure applied to exactly the nodes listed in `ids`. */
  ghost predicate StepsOver(h: Highlighter, orig: map<NodeId, NodeValue>, cur: map<NodeId, NodeValue>, ids: seq<NodeId>) {
    && cur.Keys == orig.Keys
    && forall id :: id in cur ==> cur[id] == if id in ids then Step(h, orig[id]) else orig[id]
  }

  lemma StepsOverOne(h: Highlighter, orig: map<NodeId, NodeValue>, id: NodeId)
    requires id in orig
    ensures StepsOver(h, orig, orig[id := Step(h, orig[id])], [id])
  {
  }

  /**
   * Two passes of the closure, the first over `done` and the second over
   * `next`, amount to one pass over both: `Step` is idempotent.
   */
  lemma WalkCompose(h: Highlighter, orig: map<NodeId, NodeValue>, mid: map<NodeId, NodeValue>,
                    after: map<NodeId, NodeValue>, done: seq<NodeId>, next: seq<NodeId>)
    requires StepsOver(h, orig, mid, done) && StepsOver(h, mid, after, next)
    ensures StepsOver(h, orig, after, done + next)
  {
    forall id | id in after
      ensures after[id] == if id in done + next then Step(h, orig[id]) else orig[id]
    {
      StepSpec(h, orig[id]);
    }
  }
}
