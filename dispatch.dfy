/**
 * `getDependencies`: per AMD form, which argument holds the declared
 * dependencies and whether the inner `require` calls are added.
 */
module Dispatch {
  import opened Ast
  import opened Interfaces
  import opened Evaluate
  import opened LazyLoaded

  /** The forms that declare their dependencies in an argument. */
  predicate Declares(form: Form)
  {
    form.Named? || form.Deps? || form.Driver?
  }

  /** Where the declared dependencies are: the 2nd argument of a named define, else the 1st. */
  function DeclaredIndex(form: Form): nat
    requires Declares(form)
  {
    if form.Named? then 1 else 0
  }

  /**
   * The declared-dependencies argument exists. Without it index.js reads
   * `args[1]` or `args[0]` as undefined and fails on it.
   */
  predicate HasDeclaredArg(n: Node, form: Form)
  {
    Declares(form) ==> DeclaredIndex(form) < |Arguments(n)|
  }

  /** `getDependencies`, a switch on the sniffed form. */
  function GetDependencies(env: Env, n: Node, form: Form, opts: Options): seq<string>
    requires HasDeclaredArg(n, form)
  {
    match form
    case Named =>
      var args := Arguments(n);
      GetElementValues(env, args[1]) + (if opts.skipLazyLoaded then [] else LazyLoadedDeps(env, n))
    case Deps | Driver =>
      var args := Arguments(n);
      GetElementValues(env, args[0]) + (if opts.skipLazyLoaded then [] else LazyLoadedDeps(env, n))
    case Factory | Rem =>
      LazyLoadedDeps(env, n)
    case NoDeps | Unknown =>
      []
  }

  /**
   * For a form that declares its dependencies, the element values of the
   * argument at `DeclaredIndex` come first, and the inner requires follow
   * unless `skipLazyLoaded` is set; with it set, nothing else is returned.
   */
  lemma DeclaredDependenciesFirst(env: Env, n: Node, form: Form, opts: Options)
    requires Declares(form) && HasDeclaredArg(n, form)
    ensures var declared := GetElementValues(env, Arguments(n)[DeclaredIndex(form)]);
      && declared <= GetDependencies(env, n, form, opts)
      && (opts.skipLazyLoaded ==> GetDependencies(env, n, form, opts) == declared)
      && (!opts.skipLazyLoaded ==> GetDependencies(env, n, form, opts)[|declared|..] == LazyLoadedDeps(env, n))
  {
  }

  /**
   * The `factory` and `rem` forms declare nothing: they yield exactly the
   * inner scan of the node, whatever `skipLazyLoaded` is.
   */
  lemma InnerFormsIgnoreSkip(env: Env, n: Node, form: Form, opts: Options)
    requires form.Factory? || form.Rem?
    ensures GetDependencies(env, n, form, opts) == LazyLoadedDeps(env, n)
    ensures GetDependencies(env, n, form, opts) == GetDependencies(env, n, form, Options(!opts.skipLazyLoaded))
  {
  }

  /** `nodeps` and unrecognised forms yield no dependencies. */
  lemma OtherFormsYieldNothing(env: Env, n: Node, form: Form, opts: Options)
    requires form.NoDeps? || form.Unknown?
    ensures GetDependencies(env, n, form, opts) == []
  {
  }

  /**
   * Setting `skipLazyLoaded` only cuts the result short: for every form, the
   * result with the flag set is a prefix of the result without it.
   */
  lemma SkipGivesPrefix(env: Env, n: Node, form: Form)
    requires HasDeclaredArg(n, form)
    ensures GetDependencies(env, n, form, Options(true)) <= GetDependencies(env, n, form, Options(false))
  {
  }

  /**
   * Every dependency comes either from the declared argument or from a
   * `require` call inside the node's subtree.
   */
  lemma DependencyProvenance(env: Env, n: Node, form: Form, opts: Options, x: string)
    requires HasDeclaredArg(n, form)
    requires x in GetDependencies(env, n, form, opts)
    ensures || (Declares(form) && x in GetElementValues(env, Arguments(n)[DeclaredIndex(form)]))
            || (exists inner :: inner in PreOrder(n) && x in RequireDeps(env, inner))
  {
    LazyLoadedDepsMembership(env, n, x);
  }
}
