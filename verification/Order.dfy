/** When the records of a tree come out sorted. */
module Order {
  import opened Records
  import opened Trees

  type Relation = (RecordValue, RecordValue) -> bool

  ghost predicate Transitive(leq: Relation) {
    forall a, b, c :: leq(a, b) && leq(b, c) ==> leq(a, c)
  }

  ghost predicate Sorted(leq: Relation, rs: seq<RecordValue>) {
    forall i, j :: 0 <= i < j < |rs| ==> leq(rs[i], rs[j])
  }

  ghost predicate AllBelow(leq: Relation, rs: seq<RecordValue>, r: RecordValue) {
    forall i :: 0 <= i < |rs| ==> leq(rs[i], r)
  }

  ghost predicate AllAbove(leq: Relation, r: RecordValue, rs: seq<RecordValue>) {
    forall i :: 0 <= i < |rs| ==> leq(r, rs[i])
  }

  /** Leaves are sorted, and the record after a child bounds that child and the next one. */
  ghost predicate Separated(leq: Relation, t: Tree) {
    match t
    case Leaf(records) => Sorted(leq, records)
    case Inner(_, children) => SeparatedChildren(leq, children)
  }

  ghost predicate SeparatedChildren(leq: Relation, cs: Children) {
    match cs
    case Rightmost(child) => Separated(leq, child)
    case Next(_, child, record, rest) =>
      && Separated(leq, child) && AllBelow(leq, InOrder(child), record)
      && AllAbove(leq, record, InOrder(rest.child)) && SeparatedChildren(leq, rest)
  }

  /** In every inner node, the node's own records are in order one by one. */
  ghost predicate StepwiseOrdered(leq: Relation, t: Tree) {
    t.Inner? ==> StepwiseOrderedChildren(leq, t.children)
  }

  ghost predicate StepwiseOrderedChildren(leq: Relation, cs: Children) {
    StepwiseOrdered(leq, cs.child)
    && (cs.Next? ==>
          && (cs.rest.Next? ==> leq(cs.record, cs.rest.record))
          && StepwiseOrderedChildren(leq, cs.rest))
  }

  lemma {:induction false} SortedConcat(leq: Relation, a: seq<RecordValue>, r: RecordValue, b: seq<RecordValue>)
    requires Transitive(leq)
    ensures Sorted(leq, a + ([r] + b))
       <==> Sorted(leq, a) && AllBelow(leq, a, r) && AllAbove(leq, r, b) && Sorted(leq, b)
  {
    var s := a + ([r] + b);
    if Sorted(leq, s) {
      assert forall i :: 0 <= i < |a| ==> s[i] == a[i];
      assert s[|a|] == r;
      assert forall i {:trigger b[i]} :: 0 <= i < |b| ==> s[|a| + 1 + i] == b[i];
    }
  }

  /** For any transitive relation, the enumeration is sorted exactly when the tree is ordered node by node. */
  lemma {:induction false} SortedIff(leq: Relation, t: Tree)
    requires Transitive(leq)
    ensures Sorted(leq, InOrder(t)) <==> Separated(leq, t) && StepwiseOrdered(leq, t)
    decreases t
  {
    if t.Inner? { SortedChildrenIff(leq, t.children); }
  }

  lemma {:induction false} SortedChildrenIff(leq: Relation, cs: Children)
    requires Transitive(leq)
    ensures Sorted(leq, InOrderChildren(cs)) <==> SeparatedChildren(leq, cs) && StepwiseOrderedChildren(leq, cs)
    decreases cs
  {
    hide Sorted, AllBelow, AllAbove, Transitive;
    SortedIff(leq, cs.child);
    if cs.Next? {
      SortedChildrenIff(leq, cs.rest);
      SortedConcat(leq, InOrder(cs.child), cs.record, InOrderChildren(cs.rest));
      if Sorted(leq, InOrderChildren(cs.rest)) {
        AboveChildrenIff(leq, cs.record, cs.rest);
      }
    }
  }

  lemma {:induction false} AboveChildrenIff(leq: Relation, r: RecordValue, cs: Children)
    requires Transitive(leq) && Sorted(leq, InOrderChildren(cs))
    ensures AllAbove(leq, r, InOrderChildren(cs))
       <==> AllAbove(leq, r, InOrder(cs.child)) && (cs.Next? ==> leq(r, cs.record))
  {
    if cs.Next? {
      var a, b := InOrder(cs.child), InOrderChildren(cs.rest);
      SortedConcat(leq, a, cs.record, b);
      var s := a + ([cs.record] + b);
      assert s[|a|] == cs.record;
      assert forall i :: 0 <= i < |a| ==> s[i] == a[i];
    }
  }

  /**
    Bounding neighbours alone is not enough: the reader accepts empty leaves, and an empty leaf between two
    records of a node bounds nothing.
   */
  lemma EmptyLeafHidesDisorder(leq: Relation, low: RecordValue, high: RecordValue)
    requires !leq(high, low)
    ensures var t := Inner(1, Next(2, Leaf([]), high, Next(3, Leaf([]), low, Rightmost(Leaf([])))));
      Separated(leq, t) && InOrder(t) == [high, low] && !Sorted(leq, InOrder(t))
  {
    var last := Rightmost(Leaf([]));
    assert InOrderChildren(last) == [];
    var inner := Next(3, Leaf([]), low, last);
    assert InOrderChildren(inner) == [low];
    assert SeparatedChildren(leq, last);
    assert SeparatedChildren(leq, inner);
    var t := Inner(1, Next(2, Leaf([]), high, inner));
    assert InOrder(t) == [high, low];
    assert InOrder(t)[0] == high && InOrder(t)[1] == low;
  }

  // ----- without empty leaves -----

  predicate NoEmptyLeaf(t: Tree) {
    match t
    case Leaf(records) => records != []
    case Inner(_, children) => NoEmptyLeafChildren(children)
  }

  predicate NoEmptyLeafChildren(cs: Children) {
    NoEmptyLeaf(cs.child) && (cs.Next? ==> NoEmptyLeafChildren(cs.rest))
  }

  lemma {:induction false} NonEmptyInOrder(t: Tree)
    requires NoEmptyLeaf(t)
    ensures InOrder(t) != []
    decreases t
  {
    match t
    case Leaf(_) =>
    case Inner(_, children) =>
      if children.Rightmost? { NonEmptyInOrder(children.child); }
  }

  lemma {:induction false} SeparatedStepwise(leq: Relation, t: Tree)
    requires Transitive(leq) && NoEmptyLeaf(t) && Separated(leq, t)
    ensures StepwiseOrdered(leq, t)
    decreases t
  {
    if t.Inner? { SeparatedStepwiseChildren(leq, t.children); }
  }

  lemma {:induction false} SeparatedStepwiseChildren(leq: Relation, cs: Children)
    requires Transitive(leq) && NoEmptyLeafChildren(cs) && SeparatedChildren(leq, cs)
    ensures StepwiseOrderedChildren(leq, cs)
    decreases cs
  {
    SeparatedStepwise(leq, cs.child);
    if cs.Next? {
      SeparatedStepwiseChildren(leq, cs.rest);
      if cs.rest.Next? {
        NonEmptyInOrder(cs.rest.child);
        var between := InOrder(cs.rest.child)[0];
        assert leq(cs.record, between) && leq(between, cs.rest.record);
      }
    }
  }

  /** In a tree without empty leaves, ordered neighbours are enough for the enumeration to be sorted. */
  lemma SeparatedSorted(leq: Relation, t: Tree)
    requires Transitive(leq) && NoEmptyLeaf(t) && Separated(leq, t)
    ensures Sorted(leq, InOrder(t))
  {
    SeparatedStepwise(leq, t);
    SortedIff(leq, t);
  }
}
