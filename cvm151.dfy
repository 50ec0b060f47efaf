/** The lattice engine of the 1pt5pt1 snapshot: the same M-column, N-row grid and activation
    pattern as the newest snapshot, but each node carries only the same-row pair codes wLeft
    and wRight. Two nodes of a copy of the grid are swapped and the copy is reclassified. */
module Cvm151 {
  import opened Codes
  import opened Lists
  import opened NodeGrid

  // ---------------------------------------------------------------------------------------
  // Classification
  // ---------------------------------------------------------------------------------------

  /** Reference definition of a classified list: every grid node gets both same-row pair
      codes from the activations; nodes past M*N are untouched. */
  function Classify(s: seq<Node>, m: nat, n: nat): (r: seq<Node>)
    requires m * n <= |s|
    ensures |r| == |s|
  {
    seq(|s|, x requires 0 <= x < |s| =>
      if x < m * n then
        s[x].(wLeft := PairCode(s[x].activ, s[LeftOf(m, n, x)].activ),
              wRight := PairCode(s[x].activ, s[RightOf(m, n, x)].activ))
      else s[x])
  }

  /** The wLeft pass as a function of the list it starts from. */
  function WLeftPass(s: seq<Node>, m: nat, n: nat): (r: seq<Node>)
    requires m * n <= |s|
    ensures |r| == |s|
  {
    seq(|s|, x requires 0 <= x < |s| =>
      if x < m * n then s[x].(wLeft := PairCode(s[x].activ, s[LeftOf(m, n, x)].activ)) else s[x])
  }

  /** The wRight pass as a function of the list it starts from. */
  function WRightPass(s: seq<Node>, m: nat, n: nat): (r: seq<Node>)
    requires m * n <= |s|
    ensures |r| == |s|
  {
    seq(|s|, x requires 0 <= x < |s| =>
      if x < m * n then s[x].(wRight := PairCode(s[x].activ, s[RightOf(m, n, x)].activ)) else s[x])
  }

  /** Running the two passes in the source's order gives the reference classification: the
      wLeft pass changes no activation, so the wRight pass reads the original ones. */
  lemma PassesAreClassify(s: seq<Node>, m: nat, n: nat)
    requires m * n <= |s|
    ensures WRightPass(WLeftPass(s, m, n), m, n) == Classify(s, m, n)
  {
    var s1 := WLeftPass(s, m, n);
    assert forall p :: 0 <= p < |s| ==> s1[p].activ == s[p].activ;
    assert forall x :: 0 <= x < |s| ==> WRightPass(s1, m, n)[x] == Classify(s, m, n)[x];
  }

  /** Classification changes no activation and no identity field; every grid node gets
      pair codes in {1,2,3}; nodes past M*N are untouched. */
  lemma ClassifyCodes(s: seq<Node>, m: nat, n: nat, x: nat)
    requires m * n <= |s| && x < |s|
    ensures var r := Classify(s, m, n)[x];
      r.nodeNum == s[x].nodeNum && r.row == s[x].row && r.col == s[x].col && r.activ == s[x].activ
    ensures x < m * n ==> var r := Classify(s, m, n)[x];
      1 <= r.wLeft <= 3 && 1 <= r.wRight <= 3
    ensures x >= m * n ==> Classify(s, m, n)[x] == s[x]
  {
  }

  /** Re-running the classification on a classified list changes nothing. */
  lemma ClassifyIdempotent(s: seq<Node>, m: nat, n: nat)
    requires m * n <= |s|
    ensures Classify(Classify(s, m, n), m, n) == Classify(s, m, n)
  {
    var r := Classify(s, m, n);
    assert forall p :: 0 <= p < |s| ==> r[p].activ == s[p].activ;
    assert forall x :: 0 <= x < |s| ==> Classify(r, m, n)[x] == r[x];
  }

  /** On binary activations the codes mean what their names say: each reports whether the
      node and its same-row neighbour are both on, differ, or are both off; and the two
      codes of a pair of same-row neighbours agree (node x's wRight is its right
      neighbour's wLeft). */
  lemma ClassifyMeaning(s: seq<Node>, m: nat, n: nat, x: nat)
    requires m * n <= |s| && x < m * n
    requires forall p :: 0 <= p < |s| ==> Binary(s[p].activ)
    ensures var r := Classify(s, m, n)[x];
      var a, l, rt := s[x].activ, s[LeftOf(m, n, x)].activ, s[RightOf(m, n, x)].activ;
      (r.wLeft == 1 <==> a == 1 && l == 1) && (r.wLeft == 2 <==> a != l) && (r.wLeft == 3 <==> a == 0 && l == 0) &&
      (r.wRight == 1 <==> a == 1 && rt == 1) && (r.wRight == 2 <==> a != rt) && (r.wRight == 3 <==> a == 0 && rt == 0)
    ensures var c := Classify(s, m, n);
      c[x].wRight == c[RightOf(m, n, x)].wLeft
  {
    var a, l, rt := s[x].activ, s[LeftOf(m, n, x)].activ, s[RightOf(m, n, x)].activ;
    PairCodeBinary(a, l);
    PairCodeBinary(a, rt);
    LeftRightInverse(m, n, x);
    PairCodeSymmetric(a, rt);
  }

  // ---------------------------------------------------------------------------------------
  // The passes, in place
  // ---------------------------------------------------------------------------------------

  /** One node of the wLeft pass: updating node x of a list that is done up to x, reading
      its left neighbour, leaves it done up to x + 1. */
  lemma WLeftStep(s0: seq<Node>, t: seq<Node>, m: nat, n: nat, x: nat)
    requires m * n <= |s0| && x < m * n
    requires DoneUpTo(t, WLeftPass(s0, m, n), s0, x)
    ensures DoneUpTo(t[x := t[x].(wLeft := PairCode(t[x].activ, t[LeftOf(m, n, x)].activ))],
                     WLeftPass(s0, m, n), s0, x + 1)
  {
    var l := LeftOf(m, n, x);
    assert t[l].activ == s0[l].activ;
  }

  /** One node of the wRight pass. */
  lemma WRightStep(s0: seq<Node>, t: seq<Node>, m: nat, n: nat, x: nat)
    requires m * n <= |s0| && x < m * n
    requires DoneUpTo(t, WRightPass(s0, m, n), s0, x)
    ensures DoneUpTo(t[x := t[x].(wRight := PairCode(t[x].activ, t[RightOf(m, n, x)].activ))],
                     WRightPass(s0, m, n), s0, x + 1)
  {
    var r := RightOf(m, n, x);
    assert t[r].activ == s0[r].activ;
  }

  /** The column loop of the wLeft pass on row i, starting at x = i*M: the left neighbour
      is x - 1, or the last node of the row at column 0. */
  method AssignWLeftRow(nodeList: NodeList, m: nat, n: nat, i: nat, x0: nat, ghost s0: seq<Node>)
    returns (x: nat)
    requires m * n <= |s0| && i < n && x0 == i * m
    requires DoneUpTo(nodeList.items, WLeftPass(s0, m, n), s0, x0)
    modifies nodeList
    ensures x == (i + 1) * m
    ensures DoneUpTo(nodeList.items, WLeftPass(s0, m, n), s0, x)
  {
    assert (i + 1) * m == x0 + m;
    x := x0;
    var j := 0;
    while j < m
      invariant 0 <= j <= m && x == x0 + j
      invariant DoneUpTo(nodeList.items, WLeftPass(s0, m, n), s0, x)
    {
      LeftAt(i, j, m, n, x);
      WLeftStep(s0, nodeList.items, m, n, x);
      var lLoc := if j == 0 then (i + 1) * m - 1 else x - 1;
      var lActiv := nodeList.items[lLoc].activ;
      nodeList.items := nodeList.items[x := nodeList.items[x].(wLeft := PairCode(nodeList.items[x].activ, lActiv))];
      x := x + 1;
      j := j + 1;
    }
  }

  /** The wLeft pass, row by row. */
  method AssignWLeft(nodeList: NodeList, m: nat, n: nat)
    requires m * n <= |nodeList.items|
    modifies nodeList
    ensures nodeList.items == WLeftPass(old(nodeList.items), m, n)
  {
    ghost var s0 := nodeList.items;
    var x := 0;
    var i := 0;
    while i < n
      invariant 0 <= i <= n && x == i * m
      invariant DoneUpTo(nodeList.items, WLeftPass(s0, m, n), s0, x)
    {
      x := AssignWLeftRow(nodeList, m, n, i, x, s0);
      i := i + 1;
    }
    assert x == m * n;
    assert forall p :: m * n <= p < |s0| ==> WLeftPass(s0, m, n)[p] == s0[p];
    DoneIsAll(nodeList.items, WLeftPass(s0, m, n), s0, x);
  }

  /** The column loop of the wRight pass on row i, starting at x = i*M: the right neighbour
      is x + 1, or the first node of the row at the last column. */
  method AssignWRightRow(nodeList: NodeList, m: nat, n: nat, i: nat, x0: nat, ghost s0: seq<Node>)
    returns (x: nat)
    requires m * n <= |s0| && i < n && x0 == i * m
    requires DoneUpTo(nodeList.items, WRightPass(s0, m, n), s0, x0)
    modifies nodeList
    ensures x == (i + 1) * m
    ensures DoneUpTo(nodeList.items, WRightPass(s0, m, n), s0, x)
  {
    assert (i + 1) * m == x0 + m;
    x := x0;
    var j := 0;
    while j < m
      invariant 0 <= j <= m && x == x0 + j
      invariant DoneUpTo(nodeList.items, WRightPass(s0, m, n), s0, x)
    {
      RightAt(i, j, m, n, x);
      WRightStep(s0, nodeList.items, m, n, x);
      var rLoc := if j == m - 1 then i * m else x + 1;
      var rActiv := nodeList.items[rLoc].activ;
      nodeList.items := nodeList.items[x := nodeList.items[x].(wRight := PairCode(nodeList.items[x].activ, rActiv))];
      x := x + 1;
      j := j + 1;
    }
  }

  /** The wRight pass, row by row. */
  method AssignWRight(nodeList: NodeList, m: nat, n: nat)
    requires m * n <= |nodeList.items|
    modifies nodeList
    ensures nodeList.items == WRightPass(old(nodeList.items), m, n)
  {
    ghost var s0 := nodeList.items;
    var x := 0;
    var i := 0;
    while i < n
      invariant 0 <= i <= n && x == i * m
      invariant DoneUpTo(nodeList.items, WRightPass(s0, m, n), s0, x)
    {
      x := AssignWRightRow(nodeList, m, n, i, x, s0);
      i := i + 1;
    }
    assert x == m * n;
    assert forall p :: m * n <= p < |s0| ==> WRightPass(s0, m, n)[p] == s0[p];
    DoneIsAll(nodeList.items, WRightPass(s0, m, n), s0, x);
  }

  /** assign_local_config_vars_node_list: the wLeft pass, then the wRight pass; the list
      ends up classified by the reference definition. */
  method AssignLocalConfigVars(nodeList: NodeList, m: nat, n: nat)
    requires m * n <= |nodeList.items|
    modifies nodeList
    ensures nodeList.items == Classify(old(nodeList.items), m, n)
  {
    AssignWLeft(nodeList, m, n);
    AssignWRight(nodeList, m, n);
    PassesAreClassify(old(nodeList.items), m, n);
  }

  // ---------------------------------------------------------------------------------------
  // Choosing and swapping two nodes
  // ---------------------------------------------------------------------------------------

  /** node_difference_test: reports true when the two chosen nodes have different
      activations, and otherwise hands back the flag it was given. */
  function NodeDifferenceTest(n1: nat, n2: nat, nodesDifferent: bool, s: seq<Node>): (r: bool)
    requires n1 < |s| && n2 < |s|
    ensures s[n1].activ != s[n2].activ ==> r
    ensures s[n1].activ == s[n2].activ ==> r == nodesDifferent
  {
    if s[n1].activ != s[n2].activ then true else nodesDifferent
  }

  /** The second list after node n1 has been given activation a2 and then node n2 activation
      a1; with n1 == n2 the second write wins. */
  function Interchanged(s2: seq<Node>, a1: int, a2: int, n1: nat, n2: nat): (r: seq<Node>)
    requires n1 < |s2| && n2 < |s2|
    ensures |r| == |s2|
  {
    var t := s2[n1 := s2[n1].(activ := a2)];
    t[n2 := t[n2].(activ := a1)]
  }

  /** interchange_activations_node_list2: reads the two activations of the first list before
      writing either node of the second list, so it works even when both names denote the
      same list. */
  method InterchangeActivations(n1: nat, n2: nat, nodeList: NodeList, nodeList2: NodeList)
    requires n1 < |nodeList.items| && n2 < |nodeList.items|
    requires n1 < |nodeList2.items| && n2 < |nodeList2.items|
    modifies nodeList2
    ensures nodeList2.items == Interchanged(old(nodeList2.items), old(nodeList.items[n1].activ),
                                            old(nodeList.items[n2].activ), n1, n2)
  {
    var node1OldActiv := nodeList.items[n1].activ;
    var node2OldActiv := nodeList.items[n2].activ;
    nodeList2.items := nodeList2.items[n1 := nodeList2.items[n1].(activ := node2OldActiv)];
    nodeList2.items := nodeList2.items[n2 := nodeList2.items[n2].(activ := node1OldActiv)];
  }

  /** Only the activations of nodes n1 and n2 change: node n2 gets a1, node n1 gets a2
      unless it is n2 as well, and every other node and every other field is kept. */
  lemma InterchangedAt(s2: seq<Node>, a1: int, a2: int, n1: nat, n2: nat, p: nat)
    requires n1 < |s2| && n2 < |s2| && p < |s2|
    ensures var r := Interchanged(s2, a1, a2, n1, n2);
      r[p] == s2[p].(activ := r[p].activ) &&
      r[p].activ == (if p == n2 then a1 else if p == n1 then a2 else s2[p].activ)
  {
  }

  /** Swapping within a copy of the list exchanges the two activations and keeps their
      multiset; choosing the same node twice leaves the list as it was. */
  lemma InterchangeIsSwap(s: seq<Node>, n1: nat, n2: nat)
    requires n1 < |s| && n2 < |s|
    ensures Activations(Interchanged(s, s[n1].activ, s[n2].activ, n1, n2))
            == Activations(s)[n1 := s[n2].activ][n2 := s[n1].activ]
    ensures multiset(Activations(Interchanged(s, s[n1].activ, s[n2].activ, n1, n2))) == multiset(Activations(s))
    ensures n1 == n2 ==> Interchanged(s, s[n1].activ, s[n2].activ, n1, n2) == s
  {
    var r := Interchanged(s, s[n1].activ, s[n2].activ, n1, n2);
    assert Activations(r) == Activations(s)[n1 := s[n2].activ][n2 := s[n1].activ];
    SwapKeepsMultiset(Activations(s), n1, n2);
    if n1 == n2 {
      assert r == s;
    }
  }

  /** The swap changes the list exactly when the difference test, started from false,
      reports the nodes as different. */
  lemma InterchangeChangesIffDifferent(s: seq<Node>, n1: nat, n2: nat)
    requires n1 < |s| && n2 < |s|
    ensures Interchanged(s, s[n1].activ, s[n2].activ, n1, n2) != s <==> NodeDifferenceTest(n1, n2, false, s)
  {
    var r := Interchanged(s, s[n1].activ, s[n2].activ, n1, n2);
    if s[n1].activ != s[n2].activ {
      assert r[n2].activ != s[n2].activ;
    } else {
      assert r == s;
    }
  }

  /** The effective update_config_values_node_list2 (the later of its two definitions, which
      replaces the earlier one): hands back the list it was given, unchanged. */
  method UpdateConfigValuesNodeList2(m: nat, n: nat, nodeList2: NodeList) returns (r: NodeList)
    ensures r == nodeList2
  {
    r := nodeList2;
  }

  // ---------------------------------------------------------------------------------------
  // The display list
  // ---------------------------------------------------------------------------------------

  /** The display list: the incoming values, the M*N activations of the first list, the M*N
      activations of the second, then positions M*N + n1 and M*N + n2 overwritten by the
      marks of the two chosen nodes' activations in the first list. */
  function TurtleGrid(t0: seq<int>, s1: seq<Node>, s2: seq<Node>, m: nat, n: nat, n1: nat, n2: nat): (r: seq<int>)
    requires m * n <= |s1| && m * n <= |s2| && n1 < |s1| && n2 < |s1|
    requires m * n + n1 < |t0| + 2 * (m * n) && m * n + n2 < |t0| + 2 * (m * n)
    ensures |r| == |t0| + 2 * (m * n)
  {
    var base := t0 + Activations(s1[..m * n]) + Activations(s2[..m * n]);
    base[m * n + n1 := Mark(s1[n1].activ)][m * n + n2 := Mark(s1[n2].activ)]
  }

  /** obtain_turtle_grid_list: appends both lists' activations to the display list and
      marks the two swapped nodes. */
  method ObtainTurtleGridList(turtle: MutableList<int>, nodeList: NodeList, nodeList2: NodeList,
                              m: nat, n: nat, n1: nat, n2: nat)
    requires m * n <= |nodeList.items| && m * n <= |nodeList2.items|
    requires n1 < |nodeList.items| && n2 < |nodeList.items|
    requires m * n + n1 < |turtle.items| + 2 * (m * n) && m * n + n2 < |turtle.items| + 2 * (m * n)
    modifies turtle
    ensures turtle.items == TurtleGrid(old(turtle.items), nodeList.items, nodeList2.items, m, n, n1, n2)
  {
    var s1, s2 := nodeList.items, nodeList2.items;
    var arraySize := m * n;
    AppendActivations(turtle, s1, m, n);
    AppendActivations(turtle, s2, m, n);
    if s1[n1].activ == 0 {
      turtle.items := turtle.items[arraySize + n1 := 3];
    } else {
      turtle.items := turtle.items[arraySize + n1 := 2];
    }
    if s1[n2].activ == 0 {
      turtle.items := turtle.items[arraySize + n2 := 3];
    } else {
      turtle.items := turtle.items[arraySize + n2 := 2];
    }
  }

  /** Built from an empty display list with both nodes in the grid, the list holds the first
      list's activations, then the second list's, except that the two chosen nodes of the
      second half show their marks. */
  lemma TurtleGridContents(s1: seq<Node>, s2: seq<Node>, m: nat, n: nat, n1: nat, n2: nat, p: nat)
    requires m * n <= |s1| && m * n <= |s2| && n1 < m * n && n2 < m * n
    requires p < 2 * (m * n)
    ensures var r := TurtleGrid([], s1, s2, m, n, n1, n2);
      |r| == 2 * (m * n) &&
      (p < m * n ==> r[p] == s1[p].activ) &&
      (m * n <= p && p - m * n != n1 && p - m * n != n2 ==> r[p] == s2[p - m * n].activ) &&
      (m * n <= p && (p - m * n == n1 || p - m * n == n2) ==> r[p] == Mark(s1[p - m * n].activ))
  {
  }
}
