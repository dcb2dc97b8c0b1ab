/**
 * The syntax-tree nodes the compatibility analyser looks at, with only the
 * fields it reads. Nodes of every other kind are `Other`.
 */
module Syntax {
  import opened Wrappers
  import opened Strings

  /** A PHP name: its backslash-separated parts, and whether it was written with a leading backslash. */
  datatype Name = Name(parts: seq<string>, fullyQualified: bool)

  /** (string) $name. */
  function NameString(n: Name): string {
    Join(n.parts, '\\')
  }

  /** Name::isQualified(): more than one part. */
  predicate IsQualified(n: Name) {
    |n.parts| > 1
  }

  /** (string) of an attribute that may be unset, such as namespacedName. */
  function OptNameString(n: Option<Name>): string {
    if n.Some? then NameString(n.value) else ""
  }

  /** isset($node->namespacedName) && ...->isQualified(). */
  predicate OptIsQualified(n: Option<Name>) {
    n.Some? && IsQualified(n.value)
  }

  /** The type hint of a parameter: none, a class name, or a keyword such as array or callable. */
  datatype TypeHint = NoType | TypeName(name: Name) | TypeKeyword(keyword: string)

  /** One constant of a `const A = ..., B = ...;` statement. */
  datatype ConstDecl = ConstDecl(id: nat, constName: string, value: Node)

  /**
   * Node kinds. `id` identifies a node for the memo of resolved records; the
   * arguments of calls are their value expressions. An optional string field
   * is None where the parser holds an expression instead of an identifier
   * (`$$x`, `$o->$p`).
   */
  datatype Node =
    | Namespace_(nsName: Option<Name>)
    | Class_(namespacedName: Option<Name>, isAbstract: bool, isFinal: bool, parent: Option<Name>, interfaces: seq<Name>)
    | Interface_(namespacedName: Option<Name>)
    | Trait_(namespacedName: Option<Name>)
    | Function_(namespacedName: Option<Name>)
    | Closure(startLine: nat, endLine: nat)
    | ClassMethod(methodName: string)
    | Param(variadic: bool, paramType: TypeHint, hasDefault: bool)
    | Assign(target: Node, expr: Node)
    | New_(id: nat, classRef: Node, args: seq<Node>)
    | FuncCall(id: nat, callee: Node, args: seq<Node>)
    | MethodCall(receiver: Node, calledName: Option<string>, args: seq<Node>)
    | Variable(varName: Option<string>)
    | PropertyFetch(owner: Node, property: Option<string>)
    | Use_(useType: int)
    | Array_(shortSyntax: bool)
    | ArrayDimFetch(base: Node)
    | Const_(consts: seq<ConstDecl>)
    | ConstFetch(id: nat, constName: Name)
    | MagicConst(id: nat, magicName: string)
    | Pow
    | StringLit(value: string)
    | OtherScalar
    | NameRef(name: Name)
    | Other

  /** instanceof Node\Scalar: string literals, other literals and magic constants. */
  predicate IsScalar(n: Node) {
    n.StringLit? || n.OtherScalar? || n.MagicConst?
  }

  /** $node->args[0]->value when it is a string literal. */
  function FirstStringArg(args: seq<Node>): Option<string> {
    if |args| > 0 && args[0].StringLit? then Some(args[0].value) else None
  }
}
