/** `IfMangle`: an `if` that sits inside a nesting form becomes the
    immediate call of a nullary closure around it, `((fn [] (if ...)))`. */
module IfMangling {
  import opened Nodes
  import opened Hoisting

  /** Heads an `if` may sit under without being rewritten. */
  const IfIgnore: seq<string> := ["foreach", "do"]

  /** The rule fires on `tree` in this context. */
  predicate Fires(tree: Node, stack: seq<Frame>, scope: nat) {
    HeadedBy(tree, "if") && ShouldHoist(stack, scope, IfIgnore)
  }

  /** The body of an immediate call `((fn [] body))`, if `call` is one;
      the closure's head must be the symbol `fn`. */
  function Unthunk(call: Node): (r: Option<Node>)
    ensures r.Some? ==> call.Expr? && |call.items| == 1 && call.items[0].Expr? && r.value in call.items[0].items
    ensures r.Some? ==> call.items[0].items[0] == Sym("fn", call.items[0].items[0].pos)
  {
    if call.Expr? && |call.items| == 1 && call.items[0].Expr? && |call.items[0].items| == 3
       && call.items[0].items[0].Sym? && call.items[0].items[0].name == "fn"
       && call.items[0].items[1].List? && call.items[0].items[1].items == []
    then Some(call.items[0].items[2])
    else None
  }

  /** `Unthunk` takes apart any immediate call of a nullary closure,
      whatever positions its nodes carry. */
  lemma UnthunkRecoversBody(body: Node, p1: Pos, p2: Pos, p3: Pos, p4: Pos)
    ensures Unthunk(Expr([Expr([Sym("fn", p1), List([], p2), body], p3)], p4)) == Some(body)
  {
  }

  /** `visit`: `Some(replacement)` when the rule rewrites `tree`, `None`
      when it does not. Only the outer call takes `tree`'s position; the
      closure inside it is built without one. */
  function Visit(tree: Node, stack: seq<Frame>, scope: nat): (r: Option<Node>)
    ensures r.Some? <==> Fires(tree, stack, scope)
    ensures r.Some? ==> Unthunk(r.value) == Some(tree) && r.value.pos == tree.pos
  {
    if tree.Expr? && tree.items != [] && StrValue(tree.items[0]) == Some("if")
       && ShouldHoist(stack, scope, IfIgnore)
    then
      var fn := Expr([Expr([Sym("fn", NoPos), List([], NoPos), tree], NoPos)], NoPos);
      Some(Replace(fn, tree))
    else None
  }
}

/** How the two rules and the hoisting test fit together across passes of
    the driver. */
module RuleInterplay {
  import opened Nodes
  import opened Hoisting
  import FunctionMangling
  import IfMangling
  import Naming

  /** Nothing inside quoted data is rewritten by either rule. */
  lemma QuotedDataNeverRewritten(tree: Node, stack: seq<Frame>, scope: nat, i: nat)
    requires i < |stack| && IsQuote(stack[i].node)
    ensures !FunctionMangling.Fires(tree, stack, scope)
    ensures IfMangling.Visit(tree, stack, scope) == None
  {
    QuoteForbidsHoisting(stack, i, scope, FunctionMangling.FunctionIgnore);
    QuoteForbidsHoisting(stack, i, scope, IfMangling.IfIgnore);
  }

  /** The `fn` rule's transparent heads include the `if` rule's, so an `if`
      is rewritten wherever an `fn` in the same place would be hoisted. */
  lemma FunctionContextRewritesIf(stack: seq<Frame>, scope: nat)
    requires ShouldHoist(stack, scope, FunctionMangling.FunctionIgnore)
    ensures ShouldHoist(stack, scope, IfMangling.IfIgnore)
  {
    MoreTransparencyHoistsLess(stack, scope, IfMangling.IfIgnore, FunctionMangling.FunctionIgnore);
  }

  /** The closure an `if` rewrite produces is itself hoisted on the next
      pass when the call wrapping it is the first frame the walk meets: a
      call headed by an expression is never transparent. */
  lemma {:induction false} IfThunkIsHoistedNext(tree: Node, stack: seq<Frame>, scope: nat,
                                                id: nat, rest: seq<Frame>, scope': nat)
    requires IfMangling.Visit(tree, stack, scope).Some?
    requires id != scope' && !AnyQuoted(rest)
    ensures var call := IfMangling.Visit(tree, stack, scope).value;
      FunctionMangling.Fires(call.items[0], [Frame(id, call)] + rest, scope')
  {
    var call := IfMangling.Visit(tree, stack, scope).value;
    var stack' := [Frame(id, call)] + rest;
    assert !IsQuote(call);
    assert !AnyQuoted(stack') by {
      forall i | 0 <= i < |stack'| ensures !IsQuote(stack'[i].node) {
        if i > 0 {
          assert stack'[i] == rest[i - 1];
        }
      }
    }
    assert Nesting(stack'[0], scope', FunctionMangling.FunctionIgnore);
    NestingFrameGivesTrue(stack', 0, scope', FunctionMangling.FunctionIgnore);
  }

  /** A definition `(def name (fn ...))` standing directly in the scope it
      was hoisted to is left alone by the `fn` rule on later passes. */
  lemma HoistedDefinitionIsStable(fn: Node, name: Node, headPos: Pos, pos: Pos, defId: nat, scope: nat,
                                  body: Node, rest: seq<Frame>)
    requires defId != scope
    ensures !FunctionMangling.Fires(fn, [Frame(defId, Expr([Sym("def", headPos), name, fn], pos)), Frame(scope, body)] + rest, scope)
  {
    var stack := [Frame(defId, Expr([Sym("def", headPos), name, fn], pos)), Frame(scope, body)] + rest;
    assert Skippable(stack[0], scope, FunctionMangling.FunctionIgnore);
    ScopeReachedGivesFalse(stack, 1, scope, FunctionMangling.FunctionIgnore);
  }

  /** The name an `fn` rewrite leaves behind is a symbol, which neither
      rule rewrites. */
  lemma ReplacementNameIsStable(name: string, pos: Pos, stack: seq<Frame>, scope: nat)
    ensures !FunctionMangling.Fires(Sym(name, pos), stack, scope)
    ensures IfMangling.Visit(Sym(name, pos), stack, scope) == None
  {
  }

  /** `(print (fn [x] x))` with `print`'s expression as the parent and the
      enclosing body as the scope: a fresh `FunctionMangle` replaces the
      literal by `_hy_hoisted_fn_1` and hoists `(def _hy_hoisted_fn_1 (fn [x] x))`. */
  method FunctionAsArgument(p: Pos) returns (r: Option<Node>, defs: seq<Node>)
    ensures var fn := Expr([Sym("fn", p), List([Sym("x", p)], p), Sym("x", p)], p);
      r == Some(Sym("_hy_hoisted_fn_1", p)) &&
      defs == [Expr([Sym("def", NoPos), Sym("_hy_hoisted_fn_1", p), fn], p)]
  {
    var fn := Expr([Sym("fn", p), List([Sym("x", p)], p), Sym("x", p)], p);
    var parent := Expr([Sym("print", p), fn], p);
    var stack := [Frame(1, parent), Frame(0, List([parent], p))];
    var mangle := new FunctionMangling.FunctionMangle();
    assert Nesting(stack[0], 0, FunctionMangling.FunctionIgnore);
    assert !AnyQuoted(stack) by {
      forall i | 0 <= i < |stack| ensures !IsQuote(stack[i].node) {
      }
    }
    NestingFrameGivesTrue(stack, 0, 0, FunctionMangling.FunctionIgnore);
    r := mangle.Visit(fn, stack, 0);
    Naming.FirstHoistedName();
    defs := mangle.hoisted;
  }

  /** `(print (if a b c))` with `print`'s expression as the parent and the
      enclosing body as the scope becomes `(print ((fn [] (if a b c))))`. */
  lemma ConditionalAsArgument(p: Pos)
    ensures var cond := Expr([Sym("if", p), Sym("a", p), Sym("b", p), Sym("c", p)], p);
      var parent := Expr([Sym("print", p), cond], p);
      IfMangling.Visit(cond, [Frame(1, parent), Frame(0, List([parent], p))], 0)
        == Some(Expr([Expr([Sym("fn", NoPos), List([], NoPos), cond], NoPos)], p))
  {
  }

  /** `(def f (fn [] (if a b c)))`: the `if` directly in the function body,
      which is its scope, is not rewritten. */
  lemma ConditionalAtScopeTop(p: Pos)
    ensures var cond := Expr([Sym("if", p), Sym("a", p), Sym("b", p), Sym("c", p)], p);
      var fn := Expr([Sym("fn", p), List([], p), cond], p);
      IfMangling.Visit(cond, [Frame(2, fn), Frame(1, Expr([Sym("def", p), Sym("f", p), fn], p))], 2) == None
  {
  }

  /** `(quote (fn [] 1))`: the quoted `fn` is not hoisted. */
  lemma QuotedFunctionLiteral(p: Pos)
    ensures var fn := Expr([Sym("fn", p), List([], p), Other(p)], p);
      !FunctionMangling.Fires(fn, [Frame(1, Expr([Sym("quote", p), fn], p)), Frame(0, List([], p))], 0)
  {
  }
}
