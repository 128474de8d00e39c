/** `FunctionMangle`: hoists an `fn` literal that sits inside a nesting
    form out to a `(def _hy_hoisted_fn_N (fn ...))` in the scope, and puts
    the name in its place. */
module FunctionMangling {
  import opened Nodes
  import opened Hoisting
  import opened Naming

  /** Heads an `fn` literal may sit under without being hoisted. */
  const FunctionIgnore: seq<string> := ["def", "decorate_with", "setf", "setv", "foreach", "do"]

  /** The rule fires on `tree` in this context. */
  predicate Fires(tree: Node, stack: seq<Frame>, scope: nat) {
    HeadedBy(tree, "fn") && ShouldHoist(stack, scope, FunctionIgnore)
  }

  /** The name a `(def name value)` form binds, if `d` is one. */
  function DefinedName(d: Node): Option<string> {
    if HeadedBy(d, "def") && |d.items| == 3 && d.items[1].Sym? then Some(d.items[1].name) else None
  }

  /** Definitions whose names come from strictly increasing counter values. */
  predicate MintedInOrder(defs: seq<Node>, serials: seq<nat>) {
    |defs| == |serials| &&
    (forall i :: 0 <= i < |defs| ==> DefinedName(defs[i]) == Some(HoistedName(serials[i]))) &&
    (forall i, j :: 0 <= i < j < |serials| ==> serials[i] < serials[j])
  }

  /** The names of hoisted definitions are pairwise distinct. */
  predicate DistinctNames(defs: seq<Node>) {
    forall i, j :: 0 <= i < j < |defs| ==> DefinedName(defs[i]) != DefinedName(defs[j])
  }

  lemma MintedInOrderDistinct(defs: seq<Node>, serials: seq<nat>)
    requires MintedInOrder(defs, serials)
    ensures DistinctNames(defs)
  {
    forall i, j | 0 <= i < j < |defs| ensures DefinedName(defs[i]) != DefinedName(defs[j]) {
      HoistedNameInjective(serials[i], serials[j]);
    }
  }

  class FunctionMangle {
    /** `self.series`: how many names this instance has minted. */
    var series: nat
    /** What this instance has passed to `self.hoist`, oldest first. */
    var hoisted: seq<Node>
    /** The counter value behind each entry of `hoisted`. */
    ghost var serials: seq<nat>

    ghost predicate Valid()
      reads this
    {
      MintedInOrder(hoisted, serials) &&
      (forall i :: 0 <= i < |serials| ==> 1 <= serials[i] <= series) &&
      DistinctNames(hoisted)
    }

    constructor ()
      ensures Valid() && series == 0 && hoisted == []
    {
      series := 0;
      hoisted := [];
      serials := [];
    }

    /** `unique_name`: bump the counter, then name after it. */
    method UniqueName() returns (name: string)
      requires Valid()
      modifies this
      ensures Valid()
      ensures series == old(series) + 1 && name == HoistedName(series)
      ensures hoisted == old(hoisted) && serials == old(serials)
    {
      series := series + 1;
      name := HoistedPrefix + Decimal(series);
    }

    /** `visit`: `Some(replacement)` when the rule rewrites `tree`, `None`
        (the Python `None`) when it does not. */
    method Visit(tree: Node, stack: seq<Frame>, scope: nat) returns (r: Option<Node>)
      requires Valid()
      modifies this
      ensures Valid()
      ensures Fires(tree, stack, scope) ==>
        series == old(series) + 1 &&
        r == Some(Sym(HoistedName(series), tree.pos)) &&
        hoisted == old(hoisted) + [Expr([Sym("def", NoPos), r.value, tree], tree.pos)] &&
        DefinedName(hoisted[|hoisted| - 1]) == Some(HoistedName(series)) &&
        (forall i :: 0 <= i < |old(hoisted)| ==> DefinedName(hoisted[i]) != Some(HoistedName(series)))
      ensures !Fires(tree, stack, scope) ==>
        r == None && series == old(series) && hoisted == old(hoisted)
    {
      r := None;
      if tree.Expr? && tree.items != [] {
        var call := tree.items[0];
        if StrValue(call) == Some("fn") {
          var hoist := ShouldHoistScan(stack, scope, FunctionIgnore);
          if hoist {
            assert forall i :: 0 <= i < |serials| ==> serials[i] < series + 1;
            var name := UniqueName();
            var newName := Replace(Sym(name, NoPos), tree);
            var fnDef := Replace(Expr([Sym("def", NoPos), newName, tree], NoPos), tree);
            // self.hoist(fn_def)
            hoisted := hoisted + [fnDef];
            serials := serials + [series];
            assert MintedInOrder(hoisted, serials);
            MintedInOrderDistinct(hoisted, serials);
            r := Some(newName);
          }
        }
      }
    }
  }
}
