/**
 * The collaborators the extractor consumes but does not implement, given to it
 * as values: the parser, the node classifier of ast-module-types, the form
 * sniffer of get-amd-module-type and the code generator of escodegen. Also the
 * options record and the error kinds the entry point can report.
 */
module Interfaces {
  import opened Ast

  /** The AMD form of a definition or require call, as `fromAST` reports it (`null` is `Unknown`). */
  datatype Form = Named | Deps | Driver | Factory | Rem | NoDeps | Unknown

  /** A node predicate that holds only of call expressions (as `isRequire` does). */
  type CallPredicate = p: Node -> bool | forall n :: p(n) ==> n.CallExpression?
    witness (n: Node) => false

  datatype Error =
    | SrcNotGiven               // `src` is undefined
    | SyntaxError(message: string)  // raised by the parser and passed on unchanged

  datatype Result<T> = Ok(value: T) | Err(error: Error)

  /** What the parser returns: a tree, or the message of the syntax error it raised. */
  datatype Parsed = Parsed(root: Node) | Unparsable(message: string)

  /** The external capabilities, as total functions. */
  datatype Env = Env(
    parse: string -> Parsed,
    isTopLevelRequire: Node -> bool,
    isDefine: Node -> bool,
    isRequire: CallPredicate,
    formOf: Node -> Form,
    generate: Node -> string)

  /** The options bag; an absent flag is `false`. */
  datatype Options = Options(skipLazyLoaded: bool)
}
