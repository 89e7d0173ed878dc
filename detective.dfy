/**
 * The entry point (`module.exports`): reject an undefined source, return
 * nothing for the empty string, otherwise walk the whole tree, dispatch every
 * definition or require call that is not skipped, join the results and
 * remove the duplicates.
 */
module Detective {
  import opened Ast
  import opened Interfaces
  import opened Evaluate
  import opened LazyLoaded
  import opened Dispatch
  import opened Unique

  /** What the caller hands in: nothing, source text, or an already-built tree. */
  datatype Source = Undefined | Text(text: string) | Tree(root: Node)

  /** A node is looked at only if it is a top-level require, a `define` or a `require` call. */
  predicate IsCandidate(env: Env, n: Node)
  {
    env.isTopLevelRequire(n) || env.isDefine(n) || env.isRequire(n)
  }

  /** The skip rule for lazily loaded inner requires (never a top-level one, never the `rem` form). */
  predicate IsSkipped(env: Env, opts: Options, n: Node)
  {
    !env.isTopLevelRequire(n) && env.isRequire(n) && env.formOf(n) != Rem && opts.skipLazyLoaded
  }

  /** The nodes whose dependencies are collected. */
  predicate Dispatched(env: Env, opts: Options, n: Node)
  {
    IsCandidate(env, n) && !IsSkipped(env, opts, n)
  }

  /** The visited nodes all satisfy the precondition of `Contribution`. */
  predicate AllWellFormed(env: Env, opts: Options, nodes: seq<Node>)
  {
    forall n :: n in nodes ==> (Dispatched(env, opts, n) ==> HasDeclaredArg(n, env.formOf(n)))
  }

  /** Every dispatched node of the tree has the argument its form declares dependencies in. */
  predicate WellFormed(env: Env, opts: Options, root: Node)
  {
    AllWellFormed(env, opts, PreOrder(root))
  }

  /**
   * What one visited node adds to the running list. A dispatched node
   * whose form lacks its declaring argument is one on which index.js
   * fails; the entry point's precondition rules it out, and here it adds
   * nothing.
   */
  function Contribution(env: Env, opts: Options, n: Node): seq<string>
  {
    if Dispatched(env, opts, n) && HasDeclaredArg(n, env.formOf(n)) then GetDependencies(env, n, env.formOf(n), opts) else []
  }

  /** `Contribution` as the callback value the walk is given. */
  function Callback(env: Env, opts: Options): Node -> seq<string>
  {
    n => Contribution(env, opts, n)
  }

  /** The running list after visiting `nodes`, before de-duplication. */
  function Accumulate(env: Env, opts: Options, nodes: seq<Node>): seq<string>
  {
    Collect(Callback(env, opts), nodes)
  }

  /** The dependencies of a tree: the joined contributions of its nodes, duplicates removed. */
  function Detect(env: Env, opts: Options, root: Node): seq<string>
    requires WellFormed(env, opts, root)
  {
    RemoveDuplicates(Accumulate(env, opts, PreOrder(root)))
  }

  /** The tree a non-empty source stands for, or the parser's error. */
  function TreeOf(env: Env, src: Source): (r: Result<Node>)
    requires src.Tree? || (src.Text? && src.text != "")
    ensures r.Err? ==> src.Text? && r.error.SyntaxError?
  {
    if src.Tree? then Ok(src.root)
    else match env.parse(src.text)
      case Parsed(root) => Ok(root)
      case Unparsable(message) => Err(SyntaxError(message))
  }

  /** The precondition of the entry point: the walked tree, if there is one, is well formed. */
  predicate Admissible(env: Env, opts: Options, src: Source)
  {
    (src.Tree? || (src.Text? && src.text != "")) && TreeOf(env, src).Ok? ==> WellFormed(env, opts, TreeOf(env, src).value)
  }

  /** The callback gives a dispatched node's dependencies, and nothing for any other node. */
  lemma ContributionCases(env: Env, opts: Options, n: Node)
    requires Dispatched(env, opts, n) ==> HasDeclaredArg(n, env.formOf(n))
    ensures Dispatched(env, opts, n) ==> Callback(env, opts)(n) == GetDependencies(env, n, env.formOf(n), opts)
    ensures !Dispatched(env, opts, n) ==> Callback(env, opts)(n) == []
  {
  }

  /**
   * The walk of the entry point: every visited node that is a candidate and
   * is not skipped has its dependencies appended to the running list.
   */
  method Walk(env: Env, opts: Options, root: Node) returns (dependencies: seq<string>)
    requires WellFormed(env, opts, root)
    ensures dependencies == Accumulate(env, opts, PreOrder(root))
  {
    var nodes := PreOrder(root);
    dependencies := [];
    var i := 0;
    while i < |nodes|
      invariant 0 <= i <= |nodes|
      invariant dependencies == Accumulate(env, opts, nodes[..i])
    {
      var node := nodes[i];
      assert node in nodes;
      CollectPrefixStep(Callback(env, opts), nodes, i);
      ContributionCases(env, opts, node);
      if IsCandidate(env, node) {
        var form := env.formOf(node);
        if !IsSkipped(env, opts, node) {
          var deps := GetDependencies(env, node, form, opts);
          if |deps| > 0 {
            dependencies := dependencies + deps;
          }
        }
      }
      i := i + 1;
    }
    assert nodes[..i] == nodes;
  }

  /**
   * The entry point. An undefined source is an error; the empty string gives
   * the empty list without a walk; a parse error is passed on; otherwise the
   * result is the de-duplicated dependency list of the tree.
   */
  method Extract(env: Env, src: Source, opts: Options) returns (r: Result<seq<string>>)
    requires Admissible(env, opts, src)
    ensures src.Undefined? <==> r == Err(SrcNotGiven)
    ensures src == Text("") ==> r == Ok([])
    ensures (src.Tree? || (src.Text? && src.text != "")) && TreeOf(env, src).Err? ==> r == Err(TreeOf(env, src).error)
    ensures (src.Tree? || (src.Text? && src.text != "")) && TreeOf(env, src).Ok? ==>
              r == Ok(Detect(env, opts, TreeOf(env, src).value))
  {
    if src.Undefined? {
      return Err(SrcNotGiven);
    }
    if src == Text("") {
      return Ok([]);
    }
    var tree := TreeOf(env, src);
    if tree.Err? {
      return Err(tree.error);
    }
    var dependencies := Walk(env, opts, tree.value);
    return Ok(RemoveDuplicates(dependencies));
  }

  /** Splitting the visited nodes splits the running list. */
  lemma AccumulateAppend(env: Env, opts: Options, a: seq<Node>, b: seq<Node>)
    ensures Accumulate(env, opts, a + b) == Accumulate(env, opts, a) + Accumulate(env, opts, b)
  {
    CollectAppend(Callback(env, opts), a, b);
  }

  /**
   * The skip rule and the candidate filter: a node that is no candidate, or a
   * skipped lazily loaded require, adds nothing wherever it is visited.
   */
  lemma {:induction false} IgnoredNodeAddsNothing(env: Env, opts: Options, a: seq<Node>, n: Node, b: seq<Node>)
    requires !IsCandidate(env, n) || IsSkipped(env, opts, n)
    ensures Accumulate(env, opts, a + [n] + b) == Accumulate(env, opts, a + b)
  {
    assert !Dispatched(env, opts, n);
    assert Callback(env, opts)(n) == [];
    CollectSkipsEmpty(Callback(env, opts), a, n, b);
  }

  /** A string is in the running list exactly when some dispatched visited node yields it. */
  lemma AccumulateMembership(env: Env, opts: Options, nodes: seq<Node>, x: string)
    requires AllWellFormed(env, opts, nodes)
    ensures x in Accumulate(env, opts, nodes) <==>
      exists n :: n in nodes && Dispatched(env, opts, n) && x in GetDependencies(env, n, env.formOf(n), opts)
  {
    CollectMembership(Callback(env, opts), nodes, x);
  }

  /**
   * What the tree walk returns: no string twice; exactly the strings some
   * dispatched node of the tree yields; and each string where its first
   * occurrence in the running list puts it.
   */
  lemma DetectMeaning(env: Env, opts: Options, root: Node, x: string)
    requires WellFormed(env, opts, root)
    ensures NoDuplicates(Detect(env, opts, root))
    ensures x in Detect(env, opts, root) <==>
      exists n :: n in PreOrder(root) && Dispatched(env, opts, n) && x in GetDependencies(env, n, env.formOf(n), opts)
    ensures OrderedByFirst(Accumulate(env, opts, PreOrder(root)), Detect(env, opts, root))
  {
    AccumulateMembership(env, opts, PreOrder(root), x);
  }

  /**
   * `skipLazyLoaded` only ever removes dependencies: whatever is found with
   * the flag set is found without it.
   */
  lemma SkipOnlyRemoves(env: Env, root: Node, x: string)
    requires WellFormed(env, Options(false), root)
    ensures WellFormed(env, Options(true), root)
    ensures x in Detect(env, Options(true), root) ==> x in Detect(env, Options(false), root)
  {
    var on, off := Options(true), Options(false);
    assert forall n :: Dispatched(env, on, n) ==> Dispatched(env, off, n);
    DetectMeaning(env, on, root, x);
    DetectMeaning(env, off, root, x);
    if x in Detect(env, on, root) {
      var n :| n in PreOrder(root) && Dispatched(env, on, n) && x in GetDependencies(env, n, env.formOf(n), on);
      SkipGivesPrefix(env, n, env.formOf(n));
      assert x in GetDependencies(env, n, env.formOf(n), off);
    }
  }
}
