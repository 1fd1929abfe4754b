/** The factor-tree builder of `examples/factor_tree.rs`. The graph it fills
    is reached only through `add_node(label)` and
    `add_directed_edge(from, to)`, whose implementation is not part of this
    model, so the graph is modelled as the sequence of calls made on it. A
    label is the decimal rendering of an integer; that rendering is
    injective, so labels are keyed by the integer itself. */
module FactorTree {

  datatype Option<T> = None | Some(value: T)

  /** One call on the graph. */
  datatype Call = NodeAdded(key: int) | EdgeAdded(from: int, to: int)

  /** The graph as the calls made on it so far. */
  class LabelGraph {
    var calls: seq<Call>

    constructor ()
      ensures calls == []
    {
      calls := [];
    }

    method AddNode(key: int)
      modifies this
      ensures calls == old(calls) + [NodeAdded(key)]
    {
      calls := calls + [NodeAdded(key)];
    }

    method AddDirectedEdge(from: int, to: int)
      modifies this
      ensures calls == old(calls) + [EdgeAdded(from, to)]
    {
      calls := calls + [EdgeAdded(from, to)];
    }
  }

  // ---------------------------------------------------------------------
  // Arithmetic

  predicate Divides(d: int, n: int)
    requires d != 0
  {
    n % d == 0
  }

  /** Integer square root, by counting up. */
  function ISqrt(n: nat): nat
  {
    if n == 0 then 0
    else
      var r := ISqrt(n - 1);
      if (r + 1) * (r + 1) <= n then r + 1 else r
  }

  /** `ISqrt(n)` is the exact integer square root: the largest r with r * r <= n. */
  lemma {:induction false} ISqrtSpec(n: nat)
    ensures ISqrt(n) * ISqrt(n) <= n < (ISqrt(n) + 1) * (ISqrt(n) + 1)
  {
    if n > 0 {
      ISqrtSpec(n - 1);
      var r := ISqrt(n - 1);
      assert (r + 2) * (r + 2) == (r + 1) * (r + 1) + 2 * r + 3;
    }
  }

  /** The top of the candidate range: `(value as f32).sqrt() as i32`. The
      square root of a negative value is NaN, which the cast turns into 0. */
  function SearchStart(value: int): int
  {
    if value < 0 then 0 else ISqrt(value)
  }

  lemma SquareMonotone(a: nat, b: nat)
    requires a <= b
    ensures a * a <= b * b
  {
    assert a * a <= a * b <= b * b;
  }

  // ---------------------------------------------------------------------
  // The divisor search

  /** The loop over `candidate, candidate - 1, ..., 2` that stops at the first divisor. */
  function LargestFactorFrom(value: int, candidate: int): Option<int>
    decreases candidate
  {
    if candidate < 2 then None
    else if value % candidate == 0 then Some(candidate)
    else LargestFactorFrom(value, candidate - 1)
  }

  /** The search returns the first divisor met going down from `candidate`,
      which is the largest one in `[2, candidate]`, or nothing when that
      range holds no divisor. */
  lemma {:induction false} LargestFactorFromSpec(value: int, candidate: int)
    ensures var r := LargestFactorFrom(value, candidate);
      && (r.Some? ==> 2 <= r.value <= candidate && Divides(r.value, value))
      && (r.Some? ==> forall c :: r.value < c <= candidate ==> !Divides(c, value))
      && (r.None? ==> forall c :: 2 <= c <= candidate ==> !Divides(c, value))
    decreases candidate
  {
    if candidate >= 2 && value % candidate != 0 {
      LargestFactorFromSpec(value, candidate - 1);
    }
  }

  /** The factor `compute_factor_tree` splits `value` by. */
  function LargestFactor(value: int): Option<int>
  {
    LargestFactorFrom(value, SearchStart(value))
  }

  /** The chosen factor is the largest divisor of `value` that is at least 2
      and whose square does not exceed `value`; there is none exactly when
      no such divisor exists. */
  lemma LargestFactorSpec(value: int)
    ensures var r := LargestFactor(value);
      && (r.Some? ==> 2 <= r.value && r.value * r.value <= value && Divides(r.value, value))
      && (r.Some? ==> forall c :: r.value < c && c * c <= value ==> !Divides(c, value))
      && (r.None? ==> forall c :: 2 <= c && c * c <= value ==> !Divides(c, value))
  {
    var r := LargestFactor(value);
    LargestFactorFromSpec(value, SearchStart(value));
    if value >= 0 {
      var s := ISqrt(value);
      ISqrtSpec(value);
      forall c | c * c <= value && c >= 0 ensures c <= s {
        if c > s {
          SquareMonotone(s + 1, c);
        }
      }
      if r.Some? {
        SquareMonotone(r.value, s);
      }
    }
  }

  /** A divisor d with d * d <= value splits value into d <= value / d < value. */
  lemma FactorSplit(value: int, d: int)
    requires 2 <= d && d * d <= value && Divides(d, value)
    ensures d * (value / d) == value
    ensures 2 <= d <= value / d < value && d < value
  {
    var q := value / d;
    assert value == d * q + value % d;
    assert d * q == value;
    assert q >= 2;
    assert value == d * q >= 2 * q;
  }

  // ---------------------------------------------------------------------
  // The tree

  /** The calls `compute_factor_tree(value, graph)` makes, in order. */
  function FactorTreeCalls(value: int): seq<Call>
    decreases if value < 0 then 0 else value
  {
    if value == 1 then []
    else
      match LargestFactor(value)
      case None => [NodeAdded(value)]
      case Some(first) =>
        LargestFactorSpec(value);
        FactorSplit(value, first);
        var second := value / first;
        [NodeAdded(value), NodeAdded(first), NodeAdded(second),
         EdgeAdded(value, first), EdgeAdded(value, second)]
        + FactorTreeCalls(first) + FactorTreeCalls(second)
  }

  /** Unfolds one split of the tree: both factors are at least 2 and below `value`. */
  lemma SplitCalls(value: int)
    requires value != 1 && LargestFactor(value).Some?
    ensures LargestFactor(value).value >= 2
    ensures var first := LargestFactor(value).value; var second := value / first;
      && 2 <= first < value && 2 <= second < value
      && FactorTreeCalls(value) ==
         [NodeAdded(value), NodeAdded(first), NodeAdded(second), EdgeAdded(value, first), EdgeAdded(value, second)]
         + FactorTreeCalls(first) + FactorTreeCalls(second)
  {
    LargestFactorSpec(value);
    FactorSplit(value, LargestFactor(value).value);
  }

  /** The two factors of a split multiply back to `value`, the smaller first.
      Kept apart from `SplitCalls` so that the product, a nonlinear fact, is
      not in scope where `ComputeFactorTree` only needs the unfolding. */
  lemma SplitFactors(value: int)
    requires value != 1 && LargestFactor(value).Some?
    ensures LargestFactor(value).value >= 2
    ensures var first := LargestFactor(value).value; var second := value / first;
      first * second == value && first <= second
  {
    LargestFactorSpec(value);
    FactorSplit(value, LargestFactor(value).value);
  }

  /** The divisor search of `compute_factor_tree`: candidates from the
      integer square root down to 2, stopping at the first divisor. */
  method SearchFactor(value: int) returns (found: Option<int>)
    ensures found == LargestFactor(value)
    ensures found.Some? ==> 2 <= found.value && Divides(found.value, value)
  {
    var candidate := SearchStart(value);
    while candidate >= 2 && value % candidate != 0
      invariant LargestFactorFrom(value, candidate) == LargestFactor(value)
      decreases candidate
    {
      candidate := candidate - 1;
    }
    found := if candidate >= 2 then Some(candidate) else None;
  }

  /** `compute_factor_tree`: nothing for 1; otherwise add the value's node,
      search downward from the square root for a divisor, and on the first
      one add both factors, the two edges, and recurse on each factor. */
  method ComputeFactorTree(value: int, graph: LabelGraph)
    modifies graph
    ensures graph.calls == old(graph.calls) + FactorTreeCalls(value)
    decreases if value < 0 then 0 else value
  {
    if value == 1 {
      return;
    }
    graph.AddNode(value);
    var found := SearchFactor(value);
    if found.None? {
      assert FactorTreeCalls(value) == [NodeAdded(value)];
      return;
    }
    var first := found.value;
    var second := value / first;
    ghost var links := [NodeAdded(first), NodeAdded(second), EdgeAdded(value, first), EdgeAdded(value, second)];
    assert 2 <= first < value && 2 <= second < value &&
           FactorTreeCalls(value) == [NodeAdded(value)] + links + FactorTreeCalls(first) + FactorTreeCalls(second) by {
      SplitCalls(value);
    }
    ghost var before := graph.calls;
    graph.AddNode(first);
    graph.AddNode(second);
    graph.AddDirectedEdge(value, first);
    graph.AddDirectedEdge(value, second);
    assert graph.calls == before + links;
    ghost var mid := graph.calls;
    ComputeFactorTree(first, graph);
    ComputeFactorTree(second, graph);
    assert graph.calls == mid + FactorTreeCalls(first) + FactorTreeCalls(second);
    assert graph.calls == old(graph.calls) + FactorTreeCalls(value) by {
      assert before == old(graph.calls) + [NodeAdded(value)];
      AppendAssoc4(old(graph.calls), [NodeAdded(value)], links, FactorTreeCalls(first), FactorTreeCalls(second));
    }
  }

  lemma AppendAssoc4<T>(a: seq<T>, b: seq<T>, c: seq<T>, d: seq<T>, e: seq<T>)
    ensures a + b + c + d + e == a + (b + c + d + e)
  {
  }

  /** `build_factor_tree`: a fresh graph filled by `compute_factor_tree`. */
  method BuildFactorTree(value: int) returns (graph: LabelGraph)
    ensures fresh(graph) && graph.calls == FactorTreeCalls(value)
  {
    graph := new LabelGraph();
    ComputeFactorTree(value, graph);
  }

  // ---------------------------------------------------------------------
  // Properties of the tree

  ghost predicate IsPrime(n: int)
  {
    n >= 2 && forall d :: 2 <= d < n ==> !Divides(d, n)
  }

  /** The sign of a product with a positive factor follows the other factor. */
  lemma {:induction false} MulSign(b: int, x: int)
    requires b >= 1
    ensures x >= 1 ==> b * x >= b
    ensures x <= -1 ==> b * x <= -b
    ensures x == 0 ==> b * x == 0
    decreases if x < 0 then -x else x
  {
    if x > 1 {
      MulSign(b, x - 1);
    } else if x < -1 {
      MulSign(b, x + 1);
    }
  }

  /** A multiple of b leaves no remainder. */
  lemma MultipleDivides(a: int, b: int)
    requires b >= 1
    ensures Divides(b, a * b)
  {
    var k, m := (a * b) / b, (a * b) % b;
    assert a * b == b * k + m && 0 <= m < b;
    var x := a - k;
    assert b * x == m;
    MulSign(b, x);
  }

  /** Divisibility is transitive. */
  lemma DividesTransitive(a: int, b: int, c: int)
    requires a >= 1 && b >= 1 && Divides(a, b) && Divides(b, c)
    ensures Divides(a, c)
  {
    var j, k := b / a, c / b;
    assert b == a * j;
    assert c == b * k;
    assert c == (j * k) * a;
    MultipleDivides(j * k, a);
  }

  lemma CofactorAtLeastTwo(value: int, d: int, q: int)
    requires 2 <= d < value && value == d * q
    ensures q >= 2
  {
  }

  lemma SquareBelowProduct(a: int, b: int)
    requires 0 <= a <= b
    ensures a * a <= a * b
  {
  }

  /** A divisor strictly between 1 and `value` has a partner divisor whose
      square does not exceed `value`. */
  lemma SmallDivisor(value: int, d: int) returns (c: int)
    requires 2 <= d < value && Divides(d, value)
    ensures 2 <= c && c * c <= value && Divides(c, value)
  {
    var q := value / d;
    assert value == d * q;
    CofactorAtLeastTwo(value, d, q);
    if d <= q {
      SquareBelowProduct(d, q);
      c := d;
    } else {
      SquareBelowProduct(q, d);
      MultipleDivides(d, q);
      c := q;
    }
  }

  lemma NoFactorMeansPrime(value: int)
    requires value >= 2 && LargestFactor(value).None?
    ensures IsPrime(value)
  {
    LargestFactorSpec(value);
    forall d | 2 <= d < value ensures !Divides(d, value) {
      if Divides(d, value) {
        var c := SmallDivisor(value, d);
      }
    }
  }

  lemma FactorMeansComposite(value: int)
    requires value >= 2 && LargestFactor(value).Some?
    ensures !IsPrime(value)
  {
    LargestFactorSpec(value);
    var f := LargestFactor(value).value;
    assert 2 * f <= f * f by {
      SquareBelowProduct(2, f);
    }
    assert 2 <= f < value && Divides(f, value);
  }

  /** The search finds nothing exactly when `value` is prime (for `value` >= 2). */
  lemma NoFactorIffPrime(value: int)
    requires value >= 2
    ensures LargestFactor(value).None? <==> IsPrime(value)
  {
    if LargestFactor(value).None? {
      NoFactorMeansPrime(value);
    } else {
      FactorMeansComposite(value);
    }
  }

  /** Value 1 makes no call; any other value is added first. A value the
      search finds no divisor for (a prime, or a value below 4) makes that
      one call and adds no edge. */
  lemma FactorTreeShape(value: int)
    ensures value == 1 <==> FactorTreeCalls(value) == []
    ensures value != 1 ==> FactorTreeCalls(value)[0] == NodeAdded(value)
    ensures value != 1 && LargestFactor(value).None? ==> FactorTreeCalls(value) == [NodeAdded(value)]
    ensures value >= 2 && IsPrime(value) ==> FactorTreeCalls(value) == [NodeAdded(value)]
  {
    if value >= 2 {
      NoFactorIffPrime(value);
    }
  }

  /** Every edge goes from a value to one of its factors: the target is at
      least 2, below the source, and divides it. */
  lemma {:induction false} FactorEdgesDescend(value: int)
    ensures forall c :: c in FactorTreeCalls(value) && c.EdgeAdded? ==>
      2 <= c.to < c.from && Divides(c.to, c.from)
    decreases if value < 0 then 0 else value
  {
    if value != 1 && LargestFactor(value).Some? {
      SplitCalls(value);
      var first := LargestFactor(value).value;
      var second := value / first;
      FactorEdgesDescend(first);
      FactorEdgesDescend(second);
      assert Divides(first, value) && Divides(second, value) by {
        SplitFactors(value);
        MultipleDivides(second, first);
        MultipleDivides(first, second);
      }
    }
  }

  /** Every node added for `value` >= 2 is a divisor of `value` between 2 and `value`. */
  lemma {:induction false} FactorNodesDivide(value: int)
    requires value >= 2
    ensures forall c :: c in FactorTreeCalls(value) && c.NodeAdded? ==>
      2 <= c.key <= value && Divides(c.key, value)
    decreases value
  {
    assert Divides(value, value) by {
      MultipleDivides(1, value);
    }
    if LargestFactor(value).Some? {
      SplitCalls(value);
      SplitFactors(value);
      var first := LargestFactor(value).value;
      var second := value / first;
      assert Divides(first, value) by {
        MultipleDivides(second, first);
      }
      assert Divides(second, value) by {
        MultipleDivides(first, second);
      }
      FactorNodesDivide(first);
      FactorNodesDivide(second);
      forall c | c in FactorTreeCalls(first) && c.NodeAdded?
        ensures 2 <= c.key <= value && Divides(c.key, value)
      {
        DividesTransitive(c.key, first, value);
      }
      forall c | c in FactorTreeCalls(second) && c.NodeAdded?
        ensures 2 <= c.key <= value && Divides(c.key, value)
      {
        DividesTransitive(c.key, second, value);
      }
    }
  }

  /** Both labels of every edge in `calls` were added as nodes before it. */
  ghost predicate EdgesAfterNodes(calls: seq<Call>)
  {
    forall k :: 0 <= k < |calls| && calls[k].EdgeAdded? ==>
      NodeAdded(calls[k].from) in calls[..k] && NodeAdded(calls[k].to) in calls[..k]
  }

  lemma ConcatEdgesAfterNodes(a: seq<Call>, b: seq<Call>)
    requires EdgesAfterNodes(a) && EdgesAfterNodes(b)
    ensures EdgesAfterNodes(a + b)
  {
    var calls := a + b;
    forall k | 0 <= k < |calls| && calls[k].EdgeAdded?
      ensures NodeAdded(calls[k].from) in calls[..k] && NodeAdded(calls[k].to) in calls[..k]
    {
      if k < |a| {
        assert calls[..k] == a[..k];
      } else {
        var i := k - |a|;
        assert calls[k] == b[i];
        assert calls[..k] == a + b[..i];
      }
    }
  }

  /** Both labels of every edge were added as nodes before the edge. */
  lemma {:induction false} EdgesFollowNodes(value: int)
    ensures EdgesAfterNodes(FactorTreeCalls(value))
    decreases if value < 0 then 0 else value
  {
    if value != 1 && LargestFactor(value).Some? {
      SplitCalls(value);
      var first := LargestFactor(value).value;
      var second := value / first;
      var head := [NodeAdded(value), NodeAdded(first), NodeAdded(second),
                   EdgeAdded(value, first), EdgeAdded(value, second)];
      assert EdgesAfterNodes(head) by {
        assert head[..3] == [NodeAdded(value), NodeAdded(first), NodeAdded(second)];
        assert head[..4] == head[..3] + [head[3]];
      }
      EdgesFollowNodes(first);
      EdgesFollowNodes(second);
      ConcatEdgesAfterNodes(head, FactorTreeCalls(first));
      ConcatEdgesAfterNodes(head + FactorTreeCalls(first), FactorTreeCalls(second));
    }
  }

  /** The leaves of the tree: the values on which the search found no divisor. */
  function Leaves(value: int): seq<int>
    decreases if value < 0 then 0 else value
  {
    if value == 1 then []
    else
      match LargestFactor(value)
      case None => [value]
      case Some(first) =>
        SplitCalls(value);
        Leaves(first) + Leaves(value / first)
  }

  /** A value is a leaf exactly when the tree adds its node and no edge
      leaves it: `Leaves` lists the nodes of `FactorTreeCalls` at which the
      recursion stops. */
  lemma LeavesAreTreeLeaves(value: int)
    ensures forall x :: x in Leaves(value) <==>
      NodeAdded(x) in FactorTreeCalls(value) && forall y :: EdgeAdded(x, y) !in FactorTreeCalls(value)
  {
    LeavesAdded(value);
    EdgeSourcesSplit(value);
    NodesSplitOrLeaf(value);
    forall x | NodeAdded(x) in FactorTreeCalls(value) && forall y :: EdgeAdded(x, y) !in FactorTreeCalls(value)
      ensures x in Leaves(value)
    {
      assert LargestFactor(x).None?;
    }
  }

  /** Every leaf is added as a node, and the search found no divisor for it. */
  lemma {:induction false} LeavesAdded(value: int)
    ensures forall x :: x in Leaves(value) ==>
      NodeAdded(x) in FactorTreeCalls(value) && LargestFactor(x).None?
    decreases if value < 0 then 0 else value
  {
    if value != 1 && LargestFactor(value).Some? {
      SplitCalls(value);
      LeavesAdded(LargestFactor(value).value);
      LeavesAdded(value / LargestFactor(value).value);
    }
  }

  /** An edge leaves only a value for which the search found a divisor. */
  lemma {:induction false} EdgeSourcesSplit(value: int)
    ensures forall c :: c in FactorTreeCalls(value) && c.EdgeAdded? ==> LargestFactor(c.from).Some?
    decreases if value < 0 then 0 else value
  {
    if value != 1 && LargestFactor(value).Some? {
      SplitCalls(value);
      EdgeSourcesSplit(LargestFactor(value).value);
      EdgeSourcesSplit(value / LargestFactor(value).value);
    }
  }

  /** Every node added either has the edge to its smaller factor in the
      calls or is a leaf. */
  lemma {:induction false} NodesSplitOrLeaf(value: int)
    ensures forall x :: NodeAdded(x) in FactorTreeCalls(value) ==>
      (LargestFactor(x).Some? ==> EdgeAdded(x, LargestFactor(x).value) in FactorTreeCalls(value)) &&
      (LargestFactor(x).None? ==> x in Leaves(value))
    decreases if value < 0 then 0 else value
  {
    if value != 1 && LargestFactor(value).Some? {
      SplitCalls(value);
      var first := LargestFactor(value).value;
      var second := value / first;
      NodesSplitOrLeaf(first);
      NodesSplitOrLeaf(second);
      FactorTreeShape(first);
      FactorTreeShape(second);
      assert NodeAdded(first) in FactorTreeCalls(first);
      assert NodeAdded(second) in FactorTreeCalls(second);
      assert Leaves(value) == Leaves(first) + Leaves(second);
    }
  }

  function Product(s: seq<int>): int
  {
    if s == [] then 1 else s[0] * Product(s[1..])
  }

  lemma {:induction false} ProductAppend(a: seq<int>, b: seq<int>)
    ensures Product(a + b) == Product(a) * Product(b)
  {
    if a == [] {
      assert a + b == b;
    } else {
      assert (a + b)[1..] == a[1..] + b;
      ProductAppend(a[1..], b);
    }
  }

  /** The leaves multiply back to `value`, and for `value` >= 2 every leaf is
      prime: the tree is a prime factorisation. */
  lemma {:induction false} LeavesFactorize(value: int)
    ensures Product(Leaves(value)) == value
    ensures value >= 2 ==> forall x :: x in Leaves(value) ==> IsPrime(x)
    decreases if value < 0 then 0 else value
  {
    if value != 1 {
      match LargestFactor(value)
      case None =>
        if value >= 2 {
          NoFactorIffPrime(value);
        }
      case Some(first) =>
        SplitCalls(value);
        SplitFactors(value);
        var second := value / first;
        LeavesFactorize(first);
        LeavesFactorize(second);
        ProductAppend(Leaves(first), Leaves(second));
    }
  }
}
