/**
 * `getLazyLoadedDeps`: a second walk, confined to one node's subtree, that
 * collects the first argument of every `require` call it finds.
 */
module LazyLoaded {
  import opened Ast
  import opened Interfaces
  import opened Evaluate

  /**
   * What one visited node adds to the inner scan: nothing unless it is a
   * `require` call with at least one argument; then the element values of an
   * array first argument, or the single (unfiltered) value of any other one.
   */
  function RequireDeps(env: Env, inner: Node): seq<string>
  {
    if env.isRequire(inner) && |inner.arguments| > 0 then
      var first := inner.arguments[0];
      if first.ArrayExpression? then GetElementValues(env, first) else [GetEvaluatedValue(env, first)]
    else
      []
  }

  /** `RequireDeps` as the callback value the walk is given. */
  function Visitor(env: Env): Node -> seq<string>
  {
    inner => RequireDeps(env, inner)
  }

  /** The dependencies the scan has collected after visiting `nodes`. */
  function LazyDepsOf(env: Env, nodes: seq<Node>): seq<string>
  {
    Collect(Visitor(env), nodes)
  }

  /** The result of the inner scan of the subtree rooted at `node` (the node itself included). */
  function LazyLoadedDeps(env: Env, node: Node): seq<string>
  {
    LazyDepsOf(env, PreOrder(node))
  }

  /** The inner scan, as index.js runs it: one pass over the visited nodes, growing the list. */
  method GetLazyLoadedDeps(env: Env, node: Node) returns (dependencies: seq<string>)
    ensures dependencies == LazyLoadedDeps(env, node)
  {
    var nodes := PreOrder(node);
    dependencies := [];
    var i := 0;
    while i < |nodes|
      invariant 0 <= i <= |nodes|
      invariant dependencies == LazyDepsOf(env, nodes[..i])
    {
      var innerNode := nodes[i];
      if env.isRequire(innerNode) {
        var requireArgs := innerNode.arguments;
        if |requireArgs| > 0 {
          var deps := requireArgs[0];
          if deps.ArrayExpression? {
            dependencies := dependencies + GetElementValues(env, deps);
          } else {
            dependencies := dependencies + [GetEvaluatedValue(env, deps)];
          }
        }
      }
      CollectPrefixStep(Visitor(env), nodes, i);
      i := i + 1;
    }
    assert nodes[..i] == nodes;
  }

  /** Both branches of the scan agree with the element values of the first argument. */
  lemma {:induction false} RequireDepsAreElementValues(env: Env, inner: Node)
    requires env.isRequire(inner) && |inner.arguments| > 0
    ensures RequireDeps(env, inner) == GetElementValues(env, inner.arguments[0])
  {
  }

  /** The scan follows visiting order: scanning two runs of nodes joins their results. */
  lemma LazyDepsOfAppend(env: Env, a: seq<Node>, b: seq<Node>)
    ensures LazyDepsOf(env, a + b) == LazyDepsOf(env, a) + LazyDepsOf(env, b)
  {
    CollectAppend(Visitor(env), a, b);
  }

  /**
   * A `require` call without arguments is ignored: removing it from the
   * visited nodes leaves the scan's result unchanged.
   */
  lemma {:induction false} ArgumentlessRequireIgnored(env: Env, a: seq<Node>, inner: Node, b: seq<Node>)
    requires env.isRequire(inner) && inner.arguments == []
    ensures LazyDepsOf(env, a + [inner] + b) == LazyDepsOf(env, a + b)
  {
    assert Visitor(env)(inner) == [];
    CollectSkipsEmpty(Visitor(env), a, inner, b);
  }

  /**
   * The scan starts at the node it is given: when that node is itself a
   * `require` call, its own first argument's values come first.
   */
  lemma {:induction false} LazyScanStartsAtNode(env: Env, node: Node)
    ensures RequireDeps(env, node) <= LazyLoadedDeps(env, node)
  {
    PreOrderUnfold(node);
    var f := Visitor(env);
    CollectAppend(f, [node], PreOrderAll(Children(node)));
    CollectSnoc(f, [], node);
    assert [] + [node] == [node];
  }

  /**
   * A string is collected from a subtree exactly when some `require` call in
   * that subtree contributes it.
   */
  lemma {:induction false} LazyLoadedDepsMembership(env: Env, node: Node, x: string)
    ensures x in LazyLoadedDeps(env, node) <==> exists inner :: inner in PreOrder(node) && x in RequireDeps(env, inner)
  {
    CollectMembership(Visitor(env), PreOrder(node), x);
  }

  /**
   * The single value of a non-array first argument is not filtered: a
   * `require` of a computed expression inside the subtree puts the empty
   * string into the scan's result.
   */
  lemma {:induction false} ComputedRequireKeepsEmptyString(env: Env, node: Node, inner: Node)
    requires inner in PreOrder(node) && env.isRequire(inner)
    requires |inner.arguments| > 0 && inner.arguments[0].CallExpression?
    ensures "" in LazyLoadedDeps(env, node)
  {
    assert RequireDeps(env, inner) == [""];
    LazyLoadedDepsMembership(env, node, "");
  }

  /** A subtree without `require` calls contributes nothing to the scan. */
  lemma {:induction false} NoRequireNoLazyDeps(env: Env, node: Node)
    requires forall inner :: inner in PreOrder(node) ==> !env.isRequire(inner)
    ensures LazyLoadedDeps(env, node) == []
  {
    var r := LazyLoadedDeps(env, node);
    if r != [] {
      LazyLoadedDepsMembership(env, node, r[0]);
    }
  }
}
