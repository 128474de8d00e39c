/** `flatten_literal_list`: the leaves of nested plain Python lists, in
    order. Only values whose type is exactly `list` are descended into;
    every other value, a Hy model list (a `list` subclass) included, is a
    leaf and comes out whole. */
module LiteralList {

  /** A value met by the flattening: a `PlainList` is a value of type
      exactly `list`; a `Leaf` is anything else. */
  datatype Item<T> = Leaf(value: T) | PlainList(items: seq<Item<T>>)

  predicate AllLeaves<T>(xs: seq<Item<T>>) {
    forall i :: 0 <= i < |xs| ==> xs[i].Leaf?
  }

  /** The values the generator yields, as a sequence. */
  function Flatten<T>(entry: seq<Item<T>>): (r: seq<Item<T>>)
    ensures AllLeaves(r)
  {
    if entry == [] then []
    else
      var head := match entry[0]
        case Leaf(_) => [entry[0]]
        case PlainList(items) => Flatten(items);
      head + Flatten(entry[1..])
  }

  /** Number of nodes, plain lists and leaves, in a forest. */
  function Size<T>(xs: seq<Item<T>>): nat {
    if xs == [] then 0
    else
      (match xs[0] case Leaf(_) => 1 case PlainList(items) => 1 + Size(items)) + Size(xs[1..])
  }

  lemma {:induction false} SizeAppend<T>(a: seq<Item<T>>, b: seq<Item<T>>)
    ensures Size(a + b) == Size(a) + Size(b)
  {
    if a != [] {
      assert (a + b)[1..] == a[1..] + b;
      SizeAppend(a[1..], b);
    } else {
      assert a + b == b;
    }
  }

  /** Depth-first, left-to-right traversal with an explicit work list: the
      leaf at the front is output, a plain list at the front is replaced by
      its elements. */
  function DepthFirst<T>(work: seq<Item<T>>): (r: seq<Item<T>>)
    ensures AllLeaves(r)
    decreases Size(work)
  {
    if work == [] then []
    else match work[0]
      case Leaf(_) => [work[0]] + DepthFirst(work[1..])
      case PlainList(items) =>
        SizeAppend(items, work[1..]);
        DepthFirst(items + work[1..])
  }

  /** Flattening a concatenation is concatenating the flattenings. */
  lemma {:induction false} FlattenAppend<T>(a: seq<Item<T>>, b: seq<Item<T>>)
    ensures Flatten(a + b) == Flatten(a) + Flatten(b)
  {
    if a != [] {
      assert (a + b)[0] == a[0];
      assert (a + b)[1..] == a[1..] + b;
      FlattenAppend(a[1..], b);
    } else {
      assert a + b == b;
    }
  }

  /** The leaves come out in depth-first, left-to-right order. */
  lemma {:induction false} FlattenIsDepthFirst<T>(entry: seq<Item<T>>)
    ensures Flatten(entry) == DepthFirst(entry)
    decreases Size(entry)
  {
    if entry != [] {
      match entry[0]
      case Leaf(_) =>
        FlattenIsDepthFirst(entry[1..]);
      case PlainList(items) =>
        SizeAppend(items, entry[1..]);
        FlattenIsDepthFirst(items + entry[1..]);
        FlattenAppend(items, entry[1..]);
    }
  }

  /** An input without plain lists comes out unchanged, element for element. */
  lemma {:induction false} FlattenWithoutPlainLists<T>(entry: seq<Item<T>>)
    requires AllLeaves(entry)
    ensures Flatten(entry) == entry
  {
    if entry != [] {
      FlattenWithoutPlainLists(entry[1..]);
    }
  }

  /** Flattening twice is flattening once. */
  lemma FlattenIdempotent<T>(entry: seq<Item<T>>)
    ensures Flatten(Flatten(entry)) == Flatten(entry)
  {
    FlattenWithoutPlainLists(Flatten(entry));
  }

  /** A leaf, a Hy list among them, is yielded whole wherever it sits. */
  lemma LeafYieldedWhole<T>(before: seq<Item<T>>, v: T, after: seq<Item<T>>)
    ensures Flatten(before + [Leaf(v)] + after) == Flatten(before) + [Leaf(v)] + Flatten(after)
  {
    FlattenAppend(before + [Leaf(v)], after);
    FlattenAppend(before, [Leaf(v)]);
  }

  /** A plain list nested at any point contributes its own flattening there. */
  lemma PlainListSpliced<T>(before: seq<Item<T>>, items: seq<Item<T>>, after: seq<Item<T>>)
    ensures Flatten(before + [PlainList(items)] + after) == Flatten(before) + Flatten(items) + Flatten(after)
  {
    FlattenAppend(before + [PlainList(items)], after);
    FlattenAppend(before, [PlainList(items)]);
  }
}
