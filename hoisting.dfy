/** `HoistableMangle.should_hoist`: whether the node being visited sits
    somewhere the compiled form cannot hold it, given the ancestor stack,
    the identity of the scope frame and the rule's list of transparent
    heads (`ignore`). */
module Hoisting {
  import opened Nodes

  /** A frame that is an expression headed by `quote`. */
  predicate IsQuote(n: Node) {
    HeadedBy(n, "quote")
  }

  /** A non-empty expression whose head is in `ignore`: the walk passes over it. */
  predicate Transparent(n: Node, ignore: seq<string>)
    ensures Transparent(n, ignore) <==> exists form :: form in ignore && HeadedBy(n, form)
  {
    n.Expr? && |n.items| > 0 && StrValue(n.items[0]).Some? && StrValue(n.items[0]).value in ignore
  }

  /** Some frame anywhere in the stack is quoted data. */
  predicate AnyQuoted(stack: seq<Frame>) {
    exists i :: 0 <= i < |stack| && IsQuote(stack[i].node)
  }

  /** A frame the second walk skips: not the scope and transparent. */
  predicate Skippable(f: Frame, scope: nat, ignore: seq<string>) {
    f.id != scope && Transparent(f.node, ignore)
  }

  /** A frame at which the second walk answers true. */
  predicate Nesting(f: Frame, scope: nat, ignore: seq<string>) {
    f.id != scope && !Transparent(f.node, ignore)
  }

  /** The second loop of `should_hoist`, from index 0 of the stack. */
  function Walk(stack: seq<Frame>, scope: nat, ignore: seq<string>): (b: bool)
    ensures b ==> exists k :: 0 <= k < |stack| && Nesting(stack[k], scope, ignore)
  {
    if stack == [] then false
    else if stack[0].id == scope then false
    else if Transparent(stack[0].node, ignore) then Walk(stack[1..], scope, ignore)
    else true
  }

  /** `should_hoist`: true only with nothing quoted and a first frame that
      is not the scope. */
  function ShouldHoist(stack: seq<Frame>, scope: nat, ignore: seq<string>): (b: bool)
    ensures b ==> !AnyQuoted(stack) && stack != [] && stack[0].id != scope
  {
    !AnyQuoted(stack) && Walk(stack, scope, ignore)
  }

  /** `should_hoist` as the source writes it: a scan for a quote frame,
      then an early-return walk over the same stack. */
  method ShouldHoistScan(stack: seq<Frame>, scope: nat, ignore: seq<string>) returns (hoist: bool)
    ensures hoist == ShouldHoist(stack, scope, ignore)
  {
    var i := 0;
    while i < |stack|
      invariant 0 <= i <= |stack|
      invariant forall j :: 0 <= j < i ==> !IsQuote(stack[j].node)
    {
      if IsQuote(stack[i].node) {
        return false;
      }
      i := i + 1;
    }
    i := 0;
    while i < |stack|
      invariant 0 <= i <= |stack|
      invariant Walk(stack[i..], scope, ignore) == Walk(stack, scope, ignore)
    {
      if stack[i].id == scope {
        return false;
      }
      if !Transparent(stack[i].node, ignore) {
        return true;
      }
      i := i + 1;
    }
    return false;
  }

  /** A quoted frame anywhere forbids hoisting, whatever the scope and the
      transparent heads are. */
  lemma QuoteForbidsHoisting(stack: seq<Frame>, i: nat, scope: nat, ignore: seq<string>)
    requires i < |stack| && IsQuote(stack[i].node)
    ensures !ShouldHoist(stack, scope, ignore)
  {
  }

  /** Reaching the scope frame after only transparent frames gives false. */
  lemma {:induction false} ScopeReachedGivesFalse(stack: seq<Frame>, k: nat, scope: nat, ignore: seq<string>)
    requires k < |stack| && stack[k].id == scope
    requires forall j :: 0 <= j < k ==> Skippable(stack[j], scope, ignore)
    ensures !ShouldHoist(stack, scope, ignore)
  {
    if k > 0 {
      assert Skippable(stack[0], scope, ignore);
      ScopeReachedGivesFalse(stack[1..], k - 1, scope, ignore);
    }
  }

  /** Without a quote, the first frame that is neither the scope nor
      transparent makes `should_hoist` true. */
  lemma {:induction false} NestingFrameGivesTrue(stack: seq<Frame>, k: nat, scope: nat, ignore: seq<string>)
    requires !AnyQuoted(stack)
    requires k < |stack| && Nesting(stack[k], scope, ignore)
    requires forall j :: 0 <= j < k ==> Skippable(stack[j], scope, ignore)
    ensures ShouldHoist(stack, scope, ignore)
  {
    WalkFindsNesting(stack, k, scope, ignore);
  }

  lemma {:induction false} WalkFindsNesting(stack: seq<Frame>, k: nat, scope: nat, ignore: seq<string>)
    requires k < |stack| && Nesting(stack[k], scope, ignore)
    requires forall j :: 0 <= j < k ==> Skippable(stack[j], scope, ignore)
    ensures Walk(stack, scope, ignore)
  {
    if k > 0 {
      assert Skippable(stack[0], scope, ignore);
      WalkFindsNesting(stack[1..], k - 1, scope, ignore);
    }
  }

  /** A stack that runs out (empty, or only transparent non-scope frames)
      gives false. */
  lemma {:induction false} ExhaustedWalkGivesFalse(stack: seq<Frame>, scope: nat, ignore: seq<string>)
    requires forall j :: 0 <= j < |stack| ==> Skippable(stack[j], scope, ignore)
    ensures !ShouldHoist(stack, scope, ignore)
  {
    if stack != [] {
      assert Skippable(stack[0], scope, ignore);
      ExhaustedWalkGivesFalse(stack[1..], scope, ignore);
    }
  }

  /** The immediate parent being a list literal, an empty expression or any
      other non-transparent frame (and not the scope) forces hoisting when
      nothing is quoted. */
  lemma NonTransparentParentHoists(stack: seq<Frame>, scope: nat, ignore: seq<string>)
    requires !AnyQuoted(stack)
    requires stack != [] && stack[0].id != scope
    requires stack[0].node.List? || (stack[0].node.Expr? && stack[0].node.items == [])
    ensures ShouldHoist(stack, scope, ignore)
  {
  }

  /** The whole decision in one statement: hoist exactly when nothing is
      quoted and some frame is a nesting frame with only transparent,
      non-scope frames before it. */
  lemma {:induction false} ShouldHoistCharacterised(stack: seq<Frame>, scope: nat, ignore: seq<string>)
    ensures ShouldHoist(stack, scope, ignore) <==>
      !AnyQuoted(stack) &&
      exists k :: 0 <= k < |stack| && Nesting(stack[k], scope, ignore) &&
        forall j :: 0 <= j < k ==> Skippable(stack[j], scope, ignore)
  {
    if ShouldHoist(stack, scope, ignore) {
      var k := FirstNesting(stack, scope, ignore);
    }
    if !AnyQuoted(stack) &&
      exists k :: 0 <= k < |stack| && Nesting(stack[k], scope, ignore) &&
        forall j :: 0 <= j < k ==> Skippable(stack[j], scope, ignore)
    {
      var k :| 0 <= k < |stack| && Nesting(stack[k], scope, ignore) &&
        forall j :: 0 <= j < k ==> Skippable(stack[j], scope, ignore);
      NestingFrameGivesTrue(stack, k, scope, ignore);
    }
  }

  /** When the walk answers true, the frame it stopped at. */
  lemma {:induction false} FirstNesting(stack: seq<Frame>, scope: nat, ignore: seq<string>) returns (k: nat)
    requires Walk(stack, scope, ignore)
    ensures k < |stack| && Nesting(stack[k], scope, ignore)
    ensures forall j :: 0 <= j < k ==> Skippable(stack[j], scope, ignore)
  {
    if Transparent(stack[0].node, ignore) {
      var k' := FirstNesting(stack[1..], scope, ignore);
      k := k' + 1;
      forall j | 0 <= j < k ensures Skippable(stack[j], scope, ignore) {
        if j > 0 {
          assert stack[j] == stack[1..][j - 1];
        }
      }
    } else {
      k := 0;
    }
  }

  /** A rule with more transparent heads hoists in fewer places: whenever
      the larger `ignore` list says hoist, so does the smaller one. */
  lemma {:induction false} MoreTransparencyHoistsLess(stack: seq<Frame>, scope: nat, small: seq<string>, big: seq<string>)
    requires forall s :: s in small ==> s in big
    requires ShouldHoist(stack, scope, big)
    ensures ShouldHoist(stack, scope, small)
  {
    if Transparent(stack[0].node, small) {
      assert Transparent(stack[0].node, big);
      MoreTransparencyHoistsLess(stack[1..], scope, small, big);
      assert !AnyQuoted(stack[1..]) by {
        forall i | 0 <= i < |stack[1..]| ensures !IsQuote(stack[1..][i].node) {
          assert stack[1..][i] == stack[i + 1];
        }
      }
    }
  }
}
