/**
 * The part of an ECMAScript syntax tree that the AMD extractor inspects, and
 * the deterministic walk over it (the traversal of node-source-walk: a node is
 * visited before its children, and children are visited in key order).
 */
module Ast {

  /**
   * A syntax-tree node. `Literal` stands for both the `Literal` and the
   * `StringLiteral` node types (both carry the dependency text in `value`);
   * `Other` is every other node type. Its `kind` holds the node type
   * together with all of the node's non-node attributes (an identifier's
   * `name`, an operator, ...), so that two identifiers with different names
   * are different values. Its `children` are its child nodes in key order.
   */
  datatype Node =
    | Literal(value: string)
    | CallExpression(callee: Node, arguments: seq<Node>)
    | ArrayExpression(elements: seq<Node>)
    | Other(kind: string, children: seq<Node>)

  /** The child nodes of `n`, in the order the walker descends into them. */
  function Children(n: Node): seq<Node>
  {
    match n
    case Literal(_) => []
    case CallExpression(callee, args) => [callee] + args
    case ArrayExpression(elems) => elems
    case Other(_, kids) => kids
  }

  /**
   * `node.arguments || []`: the call arguments, or none for a non-call node.
   * Other node types that carry `arguments` in ECMAScript trees (such as
   * `NewExpression`) are `Other` nodes here, so they have none.
   */
  function Arguments(n: Node): seq<Node>
  {
    if n.CallExpression? then n.arguments else []
  }

  /** The nodes of the subtree rooted at `n`, in the order the walker visits them. */
  function PreOrder(n: Node): seq<Node>
    decreases n, 1
  {
    match n
    case Literal(_) => [n]
    case CallExpression(callee, args) => [n] + PreOrder(callee) + PreOrderAll(args)
    case ArrayExpression(elems) => [n] + PreOrderAll(elems)
    case Other(_, kids) => [n] + PreOrderAll(kids)
  }

  /** The walks of the trees `ns`, one after the other. */
  function PreOrderAll(ns: seq<Node>): seq<Node>
    decreases ns, 0
  {
    if ns == [] then [] else PreOrder(ns[0]) + PreOrderAll(ns[1..])
  }

  /** The walk visits `n` first and then walks its children in order. */
  lemma {:induction false} PreOrderUnfold(n: Node)
    ensures PreOrder(n) == [n] + PreOrderAll(Children(n))
    ensures PreOrder(n)[0] == n
  {
    match n
    case CallExpression(callee, args) =>
      var kids := [callee] + args;
      assert kids[0] == callee && kids[1..] == args;
      assert PreOrderAll(kids) == PreOrder(callee) + PreOrderAll(args);
    case _ =>
  }

  /** Walking a list of trees visits every node of every tree in it. */
  lemma {:induction false} PreOrderAllCovers(ns: seq<Node>, k: nat, m: Node)
    requires k < |ns| && m in PreOrder(ns[k])
    ensures m in PreOrderAll(ns)
  {
    if k > 0 {
      PreOrderAllCovers(ns[1..], k - 1, m);
    }
  }

  /** Every node the walk of a list of trees visits lies in one of those trees. */
  lemma {:induction false} PreOrderAllFrom(ns: seq<Node>, m: Node)
    requires m in PreOrderAll(ns)
    ensures exists k :: 0 <= k < |ns| && m in PreOrder(ns[k])
  {
    if m !in PreOrder(ns[0]) {
      PreOrderAllFrom(ns[1..], m);
      var k :| 0 <= k < |ns[1..]| && m in PreOrder(ns[1..][k]);
      assert m in PreOrder(ns[k + 1]);
    }
  }

  /**
   * The walk is complete: whenever it visits a node, it also visits each
   * child of that node, so every descendant of `n` is visited.
   */
  lemma {:induction false} PreOrderComplete(n: Node, m: Node, c: Node)
    requires m in PreOrder(n) && c in Children(m)
    ensures c in PreOrder(n)
    decreases n
  {
    PreOrderUnfold(n);
    if m == n {
      var k :| 0 <= k < |Children(n)| && Children(n)[k] == c;
      PreOrderUnfold(c);
      PreOrderAllCovers(Children(n), k, c);
    } else {
      assert m in PreOrderAll(Children(n));
      PreOrderAllFrom(Children(n), m);
      var k :| 0 <= k < |Children(n)| && m in PreOrder(Children(n)[k]);
      PreOrderComplete(Children(n)[k], m, c);
      PreOrderAllCovers(Children(n), k, c);
    }
  }

  /**
   * What a walk callback `f` has collected after visiting `nodes`: the
   * callback's results joined in visiting order.
   */
  function Collect(f: Node -> seq<string>, nodes: seq<Node>): seq<string>
    decreases |nodes|
  {
    if nodes == [] then [] else Collect(f, nodes[..|nodes| - 1]) + f(nodes[|nodes| - 1])
  }

  /** Visiting one more node appends what the callback returns for it. */
  lemma CollectSnoc(f: Node -> seq<string>, init: seq<Node>, last: Node)
    ensures Collect(f, init + [last]) == Collect(f, init) + f(last)
  {
    var nodes := init + [last];
    assert nodes[..|nodes| - 1] == init && nodes[|nodes| - 1] == last;
  }

  /** One more step of a pass over `nodes`: the prefix up to `i` grows by `nodes[i]`'s result. */
  lemma CollectPrefixStep(f: Node -> seq<string>, nodes: seq<Node>, i: nat)
    requires i < |nodes|
    ensures Collect(f, nodes[..i + 1]) == Collect(f, nodes[..i]) + f(nodes[i])
  {
    assert nodes[..i + 1] == nodes[..i] + [nodes[i]];
    CollectSnoc(f, nodes[..i], nodes[i]);
  }

  /** Collecting over two runs of nodes joins the two results. */
  lemma {:induction false} CollectAppend(f: Node -> seq<string>, a: seq<Node>, b: seq<Node>)
    ensures Collect(f, a + b) == Collect(f, a) + Collect(f, b)
    decreases |b|
  {
    if b == [] {
      assert a + b == a;
    } else {
      var b', last := b[..|b| - 1], b[|b| - 1];
      assert b == b' + [last];
      assert a + b == (a + b') + [last];
      CollectSnoc(f, a + b', last);
      CollectSnoc(f, b', last);
      CollectAppend(f, a, b');
    }
  }

  /** A node for which the callback returns nothing can be removed from the pass. */
  lemma CollectSkipsEmpty(f: Node -> seq<string>, a: seq<Node>, n: Node, b: seq<Node>)
    requires f(n) == []
    ensures Collect(f, a + [n] + b) == Collect(f, a + b)
  {
    calc {
      Collect(f, a + [n] + b);
      { CollectAppend(f, a + [n], b); }
      Collect(f, a + [n]) + Collect(f, b);
      { CollectSnoc(f, a, n); }
      Collect(f, a) + f(n) + Collect(f, b);
      Collect(f, a) + Collect(f, b);
      { CollectAppend(f, a, b); }
      Collect(f, a + b);
    }
  }

  /** A string is collected exactly when the callback returns it for some visited node. */
  lemma {:induction false} CollectMembership(f: Node -> seq<string>, nodes: seq<Node>, x: string)
    ensures x in Collect(f, nodes) <==> exists n :: n in nodes && x in f(n)
    decreases |nodes|
  {
    if nodes != [] {
      var init, last := nodes[..|nodes| - 1], nodes[|nodes| - 1];
      assert nodes == init + [last];
      CollectMembership(f, init, x);
    }
  }
}
