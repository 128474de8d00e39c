/** The Hy model objects the hoisting rules look at, and the frames of the
    ancestor stack the traversal driver hands them. */
module Nodes {

  datatype Option<+T> = None | Some(value: T)

  /** Source position a model object carries for diagnostics. A node built
      by a rewrite has `NoPos` until `replace` copies one onto it. */
  datatype Pos = NoPos | At(line: nat, column: nat)

  /** A Hy model object.
      - `Expr`  : HyExpression, a parenthesised form `(head args...)`;
      - `Sym`   : HySymbol;
      - `Str`   : any other model object that is a Python `str` (HyString,
                  HyKeyword), so it compares equal to a plain string too;
      - `List`  : HyList, a bracketed literal `[...]`;
      - `Other` : every other model object (numbers, dicts, ...). */
  datatype Node =
    | Expr(items: seq<Node>, pos: Pos)
    | Sym(name: string, pos: Pos)
    | Str(text: string, pos: Pos)
    | List(items: seq<Node>, pos: Pos)
    | Other(pos: Pos)

  /** The string a node compares equal to under Python `==`, if any:
      symbols and the other `str`-based models compare by their text;
      expressions, lists and other models never equal a `str`. */
  function StrValue(n: Node): (s: Option<string>)
    ensures s.Some? <==> n.Sym? || n.Str?
    ensures n.Sym? ==> s == Some(n.name)
    ensures n.Str? ==> s == Some(n.text)
  {
    match n
    case Sym(name, _) => Some(name)
    case Str(text, _) => Some(text)
    case _ => None
  }

  /** `isinstance(tree, HyExpression) and tree != [] and tree[0] == form` */
  predicate HeadedBy(n: Node, form: string)
    ensures HeadedBy(n, form) <==>
      n.Expr? && n.items != [] &&
      ((n.items[0].Sym? && n.items[0].name == form) || (n.items[0].Str? && n.items[0].text == form))
  {
    n.Expr? && |n.items| > 0 && StrValue(n.items[0]) == Some(form)
  }

  /** `target.replace(source)`: the target takes the source's position and
      is otherwise unchanged. */
  function Replace(target: Node, source: Node): (r: Node)
    ensures r.pos == source.pos
    ensures r.(pos := target.pos) == target
  {
    target.(pos := source.pos)
  }

  /** One entry of the ancestor stack. Python compares the scope frame by
      identity (`is`), so every frame carries the identity `id` of the
      object it is; two frames with equal nodes and different ids are
      different objects. */
  datatype Frame = Frame(id: nat, node: Node)
}
