/** The lattice engine of the newest snapshot (1pt5pt5): a toroidal zigzag-chain grid of
    M columns and N rows (N even), node x at row x / M and column x % M. Each node carries
    same-row pair codes wLeft/wRight, diagonal pair codes yLeft/yRight and a triplet code
    zLeft; an aggregator turns the yLeft, wLeft and zLeft codes into twelve fractions. */
module Cvm155 {
  import opened Arith
  import opened Codes
  import opened Pattern
  import opened Lists

  /** A node record; the program's Node objects are never shared between two lists, so
      they are modelled as values held by the list object. */
  datatype Node = Node(nodeNum: int, row: int, col: int, activ: int,
                       wLeft: int, wRight: int, yLeft: int, yRight: int,
                       zLeft: int, zRight: int)

  type NodeList = MutableList<Node>

  // ---------------------------------------------------------------------------------------
  // Construction
  // ---------------------------------------------------------------------------------------

  /** Row i of a freshly built grid: every node numbered row-major, all values 0. */
  function GridRow(i: nat, m: nat): (r: seq<Node>)
    ensures |r| == m
  {
    seq(m, j requires 0 <= j < m => Node(i * m + j, i, j, 0, 0, 0, 0, 0, 0, 0))
  }

  /** The first n rows of a freshly built grid, row by row. */
  function Grid(m: nat, n: nat): (g: seq<Node>)
    ensures |g| == m * n
  {
    if n == 0 then [] else Grid(m, n - 1) + GridRow(n - 1, m)
  }

  /** Node x of a fresh grid is numbered x, sits at row x / M and column x % M, and has
      activation and every code 0. */
  lemma {:induction false} GridAt(m: nat, n: nat, x: nat)
    requires x < m * n
    ensures Grid(m, n)[x] == Node(x, x / m, x % m, 0, 0, 0, 0, 0, 0, 0)
  {
    var g := Grid(m, n);
    assert n > 0;
    if x < m * (n - 1) {
      assert g[x] == Grid(m, n - 1)[x];
      GridAt(m, n - 1, x);
    } else {
      var j := x - (n - 1) * m;
      assert 0 <= j < m;
      assert g[x] == GridRow(n - 1, m)[j];
      RowCol(n - 1, j, m);
    }
  }

  /** obtain_node_list: appends the M*N nodes of a fresh grid to the caller's list. */
  method ObtainNodeList(nodeList: NodeList, m: nat, n: nat)
    modifies nodeList
    ensures nodeList.items == old(nodeList.items) + Grid(m, n)
  {
    var x := 0;
    var i := 0;
    while i < n
      invariant 0 <= i <= n && x == i * m && x <= m * n
      invariant nodeList.items == old(nodeList.items) + Grid(m, i)
    {
      var j := 0;
      while j < m
        invariant 0 <= j <= m && x == i * m + j && x <= m * n
        invariant nodeList.items == old(nodeList.items) + Grid(m, i) + GridRow(i, m)[..j]
      {
        IndexBound(i, j, m, n);
        assert GridRow(i, m)[..j + 1] == GridRow(i, m)[..j] + [Node(x, i, j, 0, 0, 0, 0, 0, 0, 0)];
        nodeList.items := nodeList.items + [Node(x, i, j, 0, 0, 0, 0, 0, 0, 0)];
        x := x + 1;
        j := j + 1;
      }
      assert GridRow(i, m)[..m] == GridRow(i, m);
      assert x == (i + 1) * m;
      i := i + 1;
    }
  }

  /** obtain_config_vars_list: a new list of the twelve configuration variables, all 0. */
  method ObtainConfigVarsList() returns (configVars: MutableList<real>)
    ensures fresh(configVars)
    ensures |configVars.items| == 12
    ensures forall k :: 0 <= k < 12 ==> configVars.items[k] == 0.0
  {
    configVars := new MutableList<real>();
    configVars.items := [0.0, 0.0, 0.0, 0.0, 0.0, 0.0, 0.0, 0.0, 0.0, 0.0, 0.0, 0.0];
  }

  // ---------------------------------------------------------------------------------------
  // Activation pattern
  // ---------------------------------------------------------------------------------------

  /** The list after the hard-coded pattern has been applied to its first M*N nodes. */
  function Activated(s: seq<Node>, m: nat, n: nat): (r: seq<Node>)
    requires m * n <= |s|
    ensures |r| == |s|
  {
    seq(|s|, x requires 0 <= x < |s| =>
      if x < m * n && PatternOn(x / m, x % m) then s[x].(activ := 1) else s[x])
  }

  /** The pattern only ever writes activation 1, and writes nothing else: no node is turned
      off, no code or identity field changes, and nodes past M*N are untouched. */
  lemma ActivatedOnlyTurnsOn(s: seq<Node>, m: nat, n: nat, x: nat)
    requires m * n <= |s| && x < |s|
    ensures Activated(s, m, n)[x].activ == 1 || Activated(s, m, n)[x] == s[x]
    ensures s[x].activ == 1 ==> Activated(s, m, n)[x] == s[x]
    ensures Activated(s, m, n)[x] == s[x].(activ := Activated(s, m, n)[x].activ)
    ensures x >= m * n ==> Activated(s, m, n)[x] == s[x]
  {
  }

  /** On a fresh grid the node at row i, column j ends up on exactly when the pattern
      selects (i, j); with M = 12 and N = 2 that is row 0 at columns 0-2, 4-6, 8-10 and
      row 1 at columns 0, 4, 8. */
  lemma ActivatedFreshGrid(m: nat, n: nat, i: nat, j: nat)
    requires i < n && j < m
    ensures Activated(Grid(m, n), m, n)[i * m + j].activ == (if PatternOn(i, j) then 1 else 0)
    ensures m == 12 && n == 2 ==>
      (Activated(Grid(m, n), m, n)[i * m + j].activ == 1 <==>
        (i == 0 && j in {0, 1, 2, 4, 5, 6, 8, 9, 10}) || (i == 1 && j in {0, 4, 8}))
  {
    IndexBound(i, j, m, n);
    RowCol(i, j, m);
    GridAt(m, n, i * m + j);
  }

  /** One node of the activation pass: node x = i*M + j is switched on exactly when the
      pattern selects (i, j). */
  lemma ActivateStep(s0: seq<Node>, t: seq<Node>, m: nat, n: nat, i: nat, j: nat, x: nat)
    requires m * n <= |s0| && i < n && j < m && x == i * m + j
    requires DoneUpTo(t, Activated(s0, m, n), s0, x)
    ensures x < m * n
    ensures DoneUpTo(if PatternOn(i, j) then t[x := t[x].(activ := 1)] else t, Activated(s0, m, n), s0, x + 1)
  {
    IndexBound(i, j, m, n);
    RowCol(i, j, m);
  }

  /** assign_activations_node_list: switches on the pattern's nodes in place. */
  method AssignActivations(nodeList: NodeList, m: nat, n: nat)
    requires m * n <= |nodeList.items|
    modifies nodeList
    ensures nodeList.items == Activated(old(nodeList.items), m, n)
  {
    ghost var s0 := nodeList.items;
    var x := 0;
    var i := 0;
    while i < n
      invariant 0 <= i <= n && x == i * m
      invariant DoneUpTo(nodeList.items, Activated(s0, m, n), s0, x)
    {
      var j := 0;
      while j < m
        invariant 0 <= j <= m && x == i * m + j
        invariant DoneUpTo(nodeList.items, Activated(s0, m, n), s0, x)
      {
        ActivateStep(s0, nodeList.items, m, n, i, j, x);
        ghost var t := nodeList.items;
        if i == 0 {
          if j < 3 {
            nodeList.items := nodeList.items[x := nodeList.items[x].(activ := 1)];
          }
          if j > 3 {
            if j < 7 {
              nodeList.items := nodeList.items[x := nodeList.items[x].(activ := 1)];
            }
          }
          if j > 7 {
            if j < 11 {
              nodeList.items := nodeList.items[x := nodeList.items[x].(activ := 1)];
            }
          }
        }
        if i == 1 {
          if j < 1 {
            nodeList.items := nodeList.items[x := nodeList.items[x].(activ := 1)];
          }
          if j > 3 {
            if j < 5 {
              nodeList.items := nodeList.items[x := nodeList.items[x].(activ := 1)];
            }
          }
          if j > 7 {
            if j < 9 {
              nodeList.items := nodeList.items[x := nodeList.items[x].(activ := 1)];
            }
          }
        }
        assert nodeList.items == if PatternOn(i, j) then t[x := t[x].(activ := 1)] else t;
        x := x + 1;
        j := j + 1;
      }
      assert x == (i + 1) * m;
      i := i + 1;
    }
    assert x == m * n;
    assert forall p :: m * n <= p < |s0| ==> Activated(s0, m, n)[p] == s0[p];
    DoneIsAll(nodeList.items, Activated(s0, m, n), s0, x);
  }

  // ---------------------------------------------------------------------------------------
  // Diagonal neighbour addressing
  // ---------------------------------------------------------------------------------------

  /** Index of the diagonal-left neighbour of the node at row i, column j: on an even row the
      node one column to the left in the row below (wrapping to its last column), on an odd
      row the node in the same column of the row above. */
  function DiagLeft(i: nat, j: nat, m: nat): (r: nat)
    requires j < m
    ensures i % 2 == 0 ==> (i + 1) * m <= r < (i + 2) * m && r == (i + 1) * m + (j + m - 1) % m
    ensures i % 2 == 1 ==> (i - 1) * m <= r < i * m && r == (i - 1) * m + j
  {
    ModSmall(j + m - 1, m);
    MulSucc(i, m);
    MulSucc(i + 1, m);
    if i % 2 == 0 then
      if j == 0 then
        assert (j + m - 1) % m == m - 1;
        (i + 2) * m - 1
      else
        assert (j + m - 1) % m == j - 1;
        (i + 1) * m + j - 1
    else
      MulSucc(i - 1, m);
      (i - 1) * m + j
  }

  /** Index of the diagonal-right neighbour of the node at row i, column j: on an even row
      the node in the same column of the row below; on an odd row the node one column to the
      right in the row above, except that the last column wraps to the first node of its
      OWN row (index i*M), not of the row above. */
  function DiagRight(i: nat, j: nat, m: nat): (r: nat)
    requires j < m
    ensures i % 2 == 0 ==> (i + 1) * m <= r < (i + 2) * m && r == (i + 1) * m + j
    ensures i % 2 == 1 && j < m - 1 ==> (i - 1) * m <= r < i * m && r == (i - 1) * m + j + 1
    ensures i % 2 == 1 && j == m - 1 ==> r == i * m
  {
    MulSucc(i, m);
    MulSucc(i + 1, m);
    if i % 2 == 0 then
      (i + 1) * m + j
    else if j == m - 1 then
      i * m
    else
      MulSucc(i - 1, m);
      (i - 1) * m + j + 1
  }

  /** The odd-row wrap of the diagonal-right neighbour stays in the node's own row: for the
      last column of an odd row the neighbour is at row i, column 0, so it coincides with the
      same-row right neighbour rather than lying in the row above. */
  lemma OddRowDiagRightWrapStaysInRow(i: nat, m: nat)
    requires i % 2 == 1 && m > 0
    ensures DiagRight(i, m - 1, m) / m == i
    ensures DiagRight(i, m - 1, m) == RightSameRow(i, m - 1, m)
  {
    RowCol(i, 0, m);
  }

  // ---------------------------------------------------------------------------------------
  // Neighbours of node x
  // ---------------------------------------------------------------------------------------

  /** The shape the classification passes need: an even number of rows and a list holding
      at least the M*N grid nodes. */
  predicate Shaped(s: seq<Node>, m: nat, n: nat)
  {
    n % 2 == 0 && m * n <= |s|
  }

  /** Index of the diagonal-left neighbour of node x, as an offset from x. */
  function DiagLeftOf(m: nat, n: nat, x: nat): (r: nat)
    requires n % 2 == 0 && x < m * n
    ensures r < m * n
  {
    RowFacts(x, m, n);
    if (x / m) % 2 == 0 then
      if x % m == 0 then x + 2 * m - 1 else x + m - 1
    else
      x - m
  }

  /** Index of the diagonal-right neighbour of node x, as an offset from x. */
  function DiagRightOf(m: nat, n: nat, x: nat): (r: nat)
    requires n % 2 == 0 && x < m * n
    ensures r < m * n
  {
    RowFacts(x, m, n);
    if (x / m) % 2 == 0 then
      x + m
    else if x % m == m - 1 then
      x - (m - 1)
    else
      x - m + 1
  }

  /** At node x = i*M + j the diagonal-left neighbour is the one the source computes. */
  lemma DiagLeftAt(i: nat, j: nat, m: nat, n: nat, x: nat)
    requires n % 2 == 0 && i < n && j < m && x == i * m + j
    ensures x < m * n
    ensures DiagLeftOf(m, n, x) == DiagLeft(i, j, m)
  {
    IndexBound(i, j, m, n);
    RowCol(i, j, m);
  }

  /** At node x = i*M + j the diagonal-right neighbour is the one the source computes. */
  lemma DiagRightAt(i: nat, j: nat, m: nat, n: nat, x: nat)
    requires n % 2 == 0 && i < n && j < m && x == i * m + j
    ensures x < m * n
    ensures DiagRightOf(m, n, x) == DiagRight(i, j, m)
  {
    IndexBound(i, j, m, n);
    RowCol(i, j, m);
  }

  /** With an even number of rows every neighbour index of every node lies in [0, M*N). */
  lemma NeighboursInGrid(i: nat, j: nat, m: nat, n: nat)
    requires n % 2 == 0 && i < n && j < m
    ensures LeftSameRow(i, j, m) < m * n && RightSameRow(i, j, m) < m * n
    ensures DiagLeft(i, j, m) < m * n && DiagRight(i, j, m) < m * n
  {
    var x := i * m + j;
    LeftAt(i, j, m, n, x);
    RightAt(i, j, m, n, x);
    DiagLeftAt(i, j, m, n, x);
    DiagRightAt(i, j, m, n, x);
  }

  // ---------------------------------------------------------------------------------------
  // Classification
  // ---------------------------------------------------------------------------------------

  /** The node's codes computed at once from the activations of the list. */
  function ClassifiedNode(s: seq<Node>, m: nat, n: nat, x: nat): Node
    requires Shaped(s, m, n) && x < m * n
  {
    var a := s[x].activ;
    var wl := PairCode(a, s[LeftOf(m, n, x)].activ);
    var yl := PairCode(a, s[DiagLeftOf(m, n, x)].activ);
    s[x].(wLeft := wl,
          wRight := PairCode(a, s[RightOf(m, n, x)].activ),
          yLeft := yl,
          yRight := PairCode(a, s[DiagRightOf(m, n, x)].activ),
          zLeft := TripletCode(a, yl, wl))
  }

  /** Reference definition of a classified list: every grid node gets all five codes from
      the activations; nodes past M*N are untouched. */
  function Classify(s: seq<Node>, m: nat, n: nat): (r: seq<Node>)
    requires Shaped(s, m, n)
    ensures |r| == |s|
  {
    seq(|s|, x requires 0 <= x < |s| => if x < m * n then ClassifiedNode(s, m, n, x) else s[x])
  }

  /** The wLeft pass as a function of the list it starts from. */
  function WLeftPass(s: seq<Node>, m: nat, n: nat): (r: seq<Node>)
    requires Shaped(s, m, n)
    ensures |r| == |s|
  {
    seq(|s|, x requires 0 <= x < |s| =>
      if x < m * n then s[x].(wLeft := PairCode(s[x].activ, s[LeftOf(m, n, x)].activ)) else s[x])
  }

  /** The wRight pass as a function of the list it starts from. */
  function WRightPass(s: seq<Node>, m: nat, n: nat): (r: seq<Node>)
    requires Shaped(s, m, n)
    ensures |r| == |s|
  {
    seq(|s|, x requires 0 <= x < |s| =>
      if x < m * n then s[x].(wRight := PairCode(s[x].activ, s[RightOf(m, n, x)].activ)) else s[x])
  }

  /** The yLeft pass as a function of the list it starts from. */
  function YLeftPass(s: seq<Node>, m: nat, n: nat): (r: seq<Node>)
    requires Shaped(s, m, n)
    ensures |r| == |s|
  {
    seq(|s|, x requires 0 <= x < |s| =>
      if x < m * n then s[x].(yLeft := PairCode(s[x].activ, s[DiagLeftOf(m, n, x)].activ)) else s[x])
  }

  /** The yRight pass as a function of the list it starts from. */
  function YRightPass(s: seq<Node>, m: nat, n: nat): (r: seq<Node>)
    requires Shaped(s, m, n)
    ensures |r| == |s|
  {
    seq(|s|, x requires 0 <= x < |s| =>
      if x < m * n then s[x].(yRight := PairCode(s[x].activ, s[DiagRightOf(m, n, x)].activ)) else s[x])
  }

  /** The zLeft pass as a function of the list it starts from. */
  function ZLeftPass(s: seq<Node>, m: nat, n: nat): (r: seq<Node>)
    requires Shaped(s, m, n)
    ensures |r| == |s|
  {
    seq(|s|, x requires 0 <= x < |s| =>
      if x < m * n then s[x].(zLeft := TripletCode(s[x].activ, s[x].yLeft, s[x].wLeft)) else s[x])
  }

  /** Running the five passes in the source's order gives the reference classification:
      no pass changes an activation, and the triplet pass reads the yLeft and wLeft codes
      the earlier passes wrote. */
  lemma PassesAreClassify(s: seq<Node>, m: nat, n: nat)
    requires Shaped(s, m, n)
    ensures ZLeftPass(YRightPass(YLeftPass(WRightPass(WLeftPass(s, m, n), m, n), m, n), m, n), m, n)
            == Classify(s, m, n)
  {
    var s1 := WLeftPass(s, m, n);
    var s2 := WRightPass(s1, m, n);
    var s3 := YLeftPass(s2, m, n);
    var s4 := YRightPass(s3, m, n);
    var s5 := ZLeftPass(s4, m, n);
    assert forall p :: 0 <= p < |s| ==> s4[p].activ == s3[p].activ == s2[p].activ == s1[p].activ == s[p].activ;
    forall x | 0 <= x < |s|
      ensures s5[x] == Classify(s, m, n)[x]
    {
      if x < m * n {
        assert s5[x] == ClassifiedNode(s, m, n, x);
      }
    }
  }

  /** Classification changes no activation, no identity field and never writes zRight;
      every grid node gets pair codes in {1,2,3} and a triplet code in {1..6}. */
  lemma ClassifyCodes(s: seq<Node>, m: nat, n: nat, x: nat)
    requires Shaped(s, m, n) && x < |s|
    ensures var r := Classify(s, m, n)[x];
      r.nodeNum == s[x].nodeNum && r.row == s[x].row && r.col == s[x].col &&
      r.activ == s[x].activ && r.zRight == s[x].zRight
    ensures x < m * n ==> var r := Classify(s, m, n)[x];
      1 <= r.wLeft <= 3 && 1 <= r.wRight <= 3 && 1 <= r.yLeft <= 3 && 1 <= r.yRight <= 3 &&
      1 <= r.zLeft <= 6
    ensures x >= m * n ==> Classify(s, m, n)[x] == s[x]
  {
  }

  /** Two lists with the same activations get the same codes: classification is a
      function of the activations alone, with no hidden state. */
  lemma ClassifyDependsOnActivations(s: seq<Node>, t: seq<Node>, m: nat, n: nat, x: nat)
    requires Shaped(s, m, n) && |t| == |s|
    requires forall p :: 0 <= p < |s| ==> t[p].activ == s[p].activ
    requires x < m * n
    ensures Classify(t, m, n)[x] == t[x].(wLeft := Classify(s, m, n)[x].wLeft,
                                          wRight := Classify(s, m, n)[x].wRight,
                                          yLeft := Classify(s, m, n)[x].yLeft,
                                          yRight := Classify(s, m, n)[x].yRight,
                                          zLeft := Classify(s, m, n)[x].zLeft)
  {
  }

  /** Re-running the classification on a classified list changes nothing. */
  lemma ClassifyIdempotent(s: seq<Node>, m: nat, n: nat)
    requires Shaped(s, m, n)
    ensures Classify(Classify(s, m, n), m, n) == Classify(s, m, n)
  {
    var r := Classify(s, m, n);
    assert forall p :: 0 <= p < |s| ==> r[p].activ == s[p].activ;
    forall x | 0 <= x < |s|
      ensures Classify(r, m, n)[x] == r[x]
    {
      if x < m * n {
        assert ClassifiedNode(r, m, n, x) == r[x];
      }
    }
  }

  /** On binary activations the codes mean what their names say: w and y codes report
      whether the node and its same-row or diagonal neighbour are both on, differ, or are
      both off, and zLeft is the chain classification of the triplet (left neighbour,
      diagonal-left neighbour, node). */
  lemma ClassifyMeaning(s: seq<Node>, m: nat, n: nat, x: nat)
    requires Shaped(s, m, n) && x < m * n
    requires forall p :: 0 <= p < |s| ==> Binary(s[p].activ)
    ensures var r := Classify(s, m, n)[x];
      var a, l, d := s[x].activ, s[LeftOf(m, n, x)].activ, s[DiagLeftOf(m, n, x)].activ;
      (r.wLeft == 1 <==> a == 1 && l == 1) && (r.wLeft == 2 <==> a != l) && (r.wLeft == 3 <==> a == 0 && l == 0) &&
      (r.yLeft == 1 <==> a == 1 && d == 1) && (r.yLeft == 2 <==> a != d) && (r.yLeft == 3 <==> a == 0 && d == 0) &&
      r.zLeft == ChainTriplet(l, d, a)
    ensures var r := Classify(s, m, n)[x];
      var a, rt, dr := s[x].activ, s[RightOf(m, n, x)].activ, s[DiagRightOf(m, n, x)].activ;
      (r.wRight == 1 <==> a == 1 && rt == 1) && (r.wRight == 2 <==> a != rt) && (r.wRight == 3 <==> a == 0 && rt == 0) &&
      (r.yRight == 1 <==> a == 1 && dr == 1) && (r.yRight == 2 <==> a != dr) && (r.yRight == 3 <==> a == 0 && dr == 0)
  {
    var a, l, d := s[x].activ, s[LeftOf(m, n, x)].activ, s[DiagLeftOf(m, n, x)].activ;
    TripletCodeIsChainTriplet(a, d, l);
  }

  // ---------------------------------------------------------------------------------------
  // The passes, in place
  // ---------------------------------------------------------------------------------------

  /** One node of the wLeft pass: updating node x of a list that is done up to x, reading
      its left neighbour, leaves it done up to x + 1. */
  lemma WLeftStep(s0: seq<Node>, t: seq<Node>, m: nat, n: nat, x: nat)
    requires Shaped(s0, m, n) && x < m * n
    requires DoneUpTo(t, WLeftPass(s0, m, n), s0, x)
    ensures DoneUpTo(t[x := t[x].(wLeft := PairCode(t[x].activ, t[LeftOf(m, n, x)].activ))],
                     WLeftPass(s0, m, n), s0, x + 1)
  {
    var l := LeftOf(m, n, x);
    assert t[l].activ == s0[l].activ;
  }

  /** One node of the wRight pass. */
  lemma WRightStep(s0: seq<Node>, t: seq<Node>, m: nat, n: nat, x: nat)
    requires Shaped(s0, m, n) && x < m * n
    requires DoneUpTo(t, WRightPass(s0, m, n), s0, x)
    ensures DoneUpTo(t[x := t[x].(wRight := PairCode(t[x].activ, t[RightOf(m, n, x)].activ))],
                     WRightPass(s0, m, n), s0, x + 1)
  {
    var r := RightOf(m, n, x);
    assert t[r].activ == s0[r].activ;
  }

  /** One node of the yLeft pass. */
  lemma YLeftStep(s0: seq<Node>, t: seq<Node>, m: nat, n: nat, x: nat)
    requires Shaped(s0, m, n) && x < m * n
    requires DoneUpTo(t, YLeftPass(s0, m, n), s0, x)
    ensures DoneUpTo(t[x := t[x].(yLeft := PairCode(t[x].activ, t[DiagLeftOf(m, n, x)].activ))],
                     YLeftPass(s0, m, n), s0, x + 1)
  {
    var l := DiagLeftOf(m, n, x);
    assert t[l].activ == s0[l].activ;
  }

  /** One node of the yRight pass. */
  lemma YRightStep(s0: seq<Node>, t: seq<Node>, m: nat, n: nat, x: nat)
    requires Shaped(s0, m, n) && x < m * n
    requires DoneUpTo(t, YRightPass(s0, m, n), s0, x)
    ensures DoneUpTo(t[x := t[x].(yRight := PairCode(t[x].activ, t[DiagRightOf(m, n, x)].activ))],
                     YRightPass(s0, m, n), s0, x + 1)
  {
    var r := DiagRightOf(m, n, x);
    assert t[r].activ == s0[r].activ;
  }

  /** One node of the zLeft pass. */
  lemma ZLeftStep(s0: seq<Node>, t: seq<Node>, m: nat, n: nat, x: nat)
    requires Shaped(s0, m, n) && x < m * n
    requires DoneUpTo(t, ZLeftPass(s0, m, n), s0, x)
    ensures DoneUpTo(t[x := t[x].(zLeft := TripletCode(t[x].activ, t[x].yLeft, t[x].wLeft))],
                     ZLeftPass(s0, m, n), s0, x + 1)
  {
  }

  /** The column loop of the wLeft pass on row i, starting at x = i*M: the left neighbour
      is x - 1, or the last node of the row at column 0. */
  method AssignWLeftRow(nodeList: NodeList, m: nat, n: nat, i: nat, x0: nat, ghost s0: seq<Node>)
    returns (x: nat)
    requires Shaped(s0, m, n) && i < n && x0 == i * m
    requires DoneUpTo(nodeList.items, WLeftPass(s0, m, n), s0, x0)
    modifies nodeList
    ensures x == (i + 1) * m
    ensures DoneUpTo(nodeList.items, WLeftPass(s0, m, n), s0, x)
  {
    assert (i + 1) * m == x0 + m;
    x := x0;
    var j := 0;
    while j < m
      invariant 0 <= j <= m && x == x0 + j
      invariant DoneUpTo(nodeList.items, WLeftPass(s0, m, n), s0, x)
    {
      LeftAt(i, j, m, n, x);
      WLeftStep(s0, nodeList.items, m, n, x);
      var lLoc := if j == 0 then (i + 1) * m - 1 else x - 1;
      var lActiv := nodeList.items[lLoc].activ;
      nodeList.items := nodeList.items[x := nodeList.items[x].(wLeft := PairCode(nodeList.items[x].activ, lActiv))];
      x := x + 1;
      j := j + 1;
    }
  }

  /** The wLeft pass, row by row. */
  method AssignWLeft(nodeList: NodeList, m: nat, n: nat)
    requires Shaped(nodeList.items, m, n)
    modifies nodeList
    ensures nodeList.items == WLeftPass(old(nodeList.items), m, n)
  {
    ghost var s0 := nodeList.items;
    var x := 0;
    var i := 0;
    while i < n
      invariant 0 <= i <= n && x == i * m
      invariant DoneUpTo(nodeList.items, WLeftPass(s0, m, n), s0, x)
    {
      x := AssignWLeftRow(nodeList, m, n, i, x, s0);
      i := i + 1;
    }
    assert x == m * n;
    assert forall p :: m * n <= p < |s0| ==> WLeftPass(s0, m, n)[p] == s0[p];
    DoneIsAll(nodeList.items, WLeftPass(s0, m, n), s0, x);
  }

  /** The column loop of the wRight pass on row i, starting at x = i*M: the right neighbour
      is x + 1, or the first node of the row at the last column. */
  method AssignWRightRow(nodeList: NodeList, m: nat, n: nat, i: nat, x0: nat, ghost s0: seq<Node>)
    returns (x: nat)
    requires Shaped(s0, m, n) && i < n && x0 == i * m
    requires DoneUpTo(nodeList.items, WRightPass(s0, m, n), s0, x0)
    modifies nodeList
    ensures x == (i + 1) * m
    ensures DoneUpTo(nodeList.items, WRightPass(s0, m, n), s0, x)
  {
    assert (i + 1) * m == x0 + m;
    x := x0;
    var j := 0;
    while j < m
      invariant 0 <= j <= m && x == x0 + j
      invariant DoneUpTo(nodeList.items, WRightPass(s0, m, n), s0, x)
    {
      RightAt(i, j, m, n, x);
      WRightStep(s0, nodeList.items, m, n, x);
      var rLoc := if j == m - 1 then i * m else x + 1;
      var rActiv := nodeList.items[rLoc].activ;
      nodeList.items := nodeList.items[x := nodeList.items[x].(wRight := PairCode(nodeList.items[x].activ, rActiv))];
      x := x + 1;
      j := j + 1;
    }
  }

  /** The wRight pass, row by row. */
  method AssignWRight(nodeList: NodeList, m: nat, n: nat)
    requires Shaped(nodeList.items, m, n)
    modifies nodeList
    ensures nodeList.items == WRightPass(old(nodeList.items), m, n)
  {
    ghost var s0 := nodeList.items;
    var x := 0;
    var i := 0;
    while i < n
      invariant 0 <= i <= n && x == i * m
      invariant DoneUpTo(nodeList.items, WRightPass(s0, m, n), s0, x)
    {
      x := AssignWRightRow(nodeList, m, n, i, x, s0);
      i := i + 1;
    }
    assert x == m * n;
    assert forall p :: m * n <= p < |s0| ==> WRightPass(s0, m, n)[p] == s0[p];
    DoneIsAll(nodeList.items, WRightPass(s0, m, n), s0, x);
  }

  /** The column loop of the yLeft pass on an even row i, starting at x = i*M. */
  method AssignYLeftEvenRow(nodeList: NodeList, m: nat, n: nat, i: nat, x0: nat, ghost s0: seq<Node>)
    returns (x: nat)
    requires Shaped(s0, m, n) && i < n && i % 2 == 0 && x0 == i * m
    requires DoneUpTo(nodeList.items, YLeftPass(s0, m, n), s0, x0)
    modifies nodeList
    ensures x == (i + 1) * m
    ensures DoneUpTo(nodeList.items, YLeftPass(s0, m, n), s0, x)
  {
    assert (i + 1) * m == x0 + m && (i + 2) * m == x0 + 2 * m;
    x := x0;
    var j := 0;
    while j < m
      invariant 0 <= j <= m && x == x0 + j
      invariant DoneUpTo(nodeList.items, YLeftPass(s0, m, n), s0, x)
    {
      DiagLeftAt(i, j, m, n, x);
      YLeftStep(s0, nodeList.items, m, n, x);
      var lDiagLoc := if j == 0 then (i + 2) * m - 1 else (i + 1) * m + j - 1;
      var lActiv := nodeList.items[lDiagLoc].activ;
      nodeList.items := nodeList.items[x := nodeList.items[x].(yLeft := PairCode(nodeList.items[x].activ, lActiv))];
      x := x + 1;
      j := j + 1;
    }
  }

  /** The column loop of the yLeft pass on an odd row i, starting at x = i*M. */
  method AssignYLeftOddRow(nodeList: NodeList, m: nat, n: nat, i: nat, x0: nat, ghost s0: seq<Node>)
    returns (x: nat)
    requires Shaped(s0, m, n) && i < n && i % 2 == 1 && x0 == i * m
    requires DoneUpTo(nodeList.items, YLeftPass(s0, m, n), s0, x0)
    modifies nodeList
    ensures x == (i + 1) * m
    ensures DoneUpTo(nodeList.items, YLeftPass(s0, m, n), s0, x)
  {
    assert (i - 1) * m == x0 - m;
    x := x0;
    var j := 0;
    while j < m
      invariant 0 <= j <= m && x == x0 + j
      invariant DoneUpTo(nodeList.items, YLeftPass(s0, m, n), s0, x)
    {
      DiagLeftAt(i, j, m, n, x);
      YLeftStep(s0, nodeList.items, m, n, x);
      var lDiagLoc := (i - 1) * m + j;
      var lActiv := nodeList.items[lDiagLoc].activ;
      nodeList.items := nodeList.items[x := nodeList.items[x].(yLeft := PairCode(nodeList.items[x].activ, lActiv))];
      x := x + 1;
      j := j + 1;
    }
  }

  /** The yLeft pass: even and odd rows use their own column loops. */
  method AssignYLeft(nodeList: NodeList, m: nat, n: nat)
    requires Shaped(nodeList.items, m, n)
    modifies nodeList
    ensures nodeList.items == YLeftPass(old(nodeList.items), m, n)
  {
    ghost var s0 := nodeList.items;
    var x := 0;
    var i := 0;
    while i < n
      invariant 0 <= i <= n && x == i * m
      invariant DoneUpTo(nodeList.items, YLeftPass(s0, m, n), s0, x)
    {
      if i % 2 == 0 {
        x := AssignYLeftEvenRow(nodeList, m, n, i, x, s0);
      } else {
        x := AssignYLeftOddRow(nodeList, m, n, i, x, s0);
      }
      i := i + 1;
    }
    assert x == m * n;
    assert forall p :: m * n <= p < |s0| ==> YLeftPass(s0, m, n)[p] == s0[p];
    DoneIsAll(nodeList.items, YLeftPass(s0, m, n), s0, x);
  }

  /** The column loop of the yRight pass on an even row i, starting at x = i*M. */
  method AssignYRightEvenRow(nodeList: NodeList, m: nat, n: nat, i: nat, x0: nat, ghost s0: seq<Node>)
    returns (x: nat)
    requires Shaped(s0, m, n) && i < n && i % 2 == 0 && x0 == i * m
    requires DoneUpTo(nodeList.items, YRightPass(s0, m, n), s0, x0)
    modifies nodeList
    ensures x == (i + 1) * m
    ensures DoneUpTo(nodeList.items, YRightPass(s0, m, n), s0, x)
  {
    assert (i + 1) * m == x0 + m;
    x := x0;
    var j := 0;
    while j < m
      invariant 0 <= j <= m && x == x0 + j
      invariant DoneUpTo(nodeList.items, YRightPass(s0, m, n), s0, x)
    {
      DiagRightAt(i, j, m, n, x);
      YRightStep(s0, nodeList.items, m, n, x);
      var rDiagLoc := (i + 1) * m + j;
      var rActiv := nodeList.items[rDiagLoc].activ;
      nodeList.items := nodeList.items[x := nodeList.items[x].(yRight := PairCode(nodeList.items[x].activ, rActiv))];
      x := x + 1;
      j := j + 1;
    }
  }

  /** The column loop of the yRight pass on an odd row i, starting at x = i*M; the last
      column reads node i*M. */
  method AssignYRightOddRow(nodeList: NodeList, m: nat, n: nat, i: nat, x0: nat, ghost s0: seq<Node>)
    returns (x: nat)
    requires Shaped(s0, m, n) && i < n && i % 2 == 1 && x0 == i * m
    requires DoneUpTo(nodeList.items, YRightPass(s0, m, n), s0, x0)
    modifies nodeList
    ensures x == (i + 1) * m
    ensures DoneUpTo(nodeList.items, YRightPass(s0, m, n), s0, x)
  {
    assert (i - 1) * m == x0 - m;
    x := x0;
    var j := 0;
    while j < m
      invariant 0 <= j <= m && x == x0 + j
      invariant DoneUpTo(nodeList.items, YRightPass(s0, m, n), s0, x)
    {
      DiagRightAt(i, j, m, n, x);
      YRightStep(s0, nodeList.items, m, n, x);
      var rDiagLoc := if j == m - 1 then i * m else (i - 1) * m + j + 1;
      var rActiv := nodeList.items[rDiagLoc].activ;
      nodeList.items := nodeList.items[x := nodeList.items[x].(yRight := PairCode(nodeList.items[x].activ, rActiv))];
      x := x + 1;
      j := j + 1;
    }
  }

  /** The yRight pass: even and odd rows use their own column loops. */
  method AssignYRight(nodeList: NodeList, m: nat, n: nat)
    requires Shaped(nodeList.items, m, n)
    modifies nodeList
    ensures nodeList.items == YRightPass(old(nodeList.items), m, n)
  {
    ghost var s0 := nodeList.items;
    var x := 0;
    var i := 0;
    while i < n
      invariant 0 <= i <= n && x == i * m
      invariant DoneUpTo(nodeList.items, YRightPass(s0, m, n), s0, x)
    {
      if i % 2 == 0 {
        x := AssignYRightEvenRow(nodeList, m, n, i, x, s0);
      } else {
        x := AssignYRightOddRow(nodeList, m, n, i, x, s0);
      }
      i := i + 1;
    }
    assert x == m * n;
    assert forall p :: m * n <= p < |s0| ==> YRightPass(s0, m, n)[p] == s0[p];
    DoneIsAll(nodeList.items, YRightPass(s0, m, n), s0, x);
  }

  /** The zLeft pass: the triplet table on the node's own activation, yLeft and wLeft. */
  method AssignZLeft(nodeList: NodeList, m: nat, n: nat)
    requires Shaped(nodeList.items, m, n)
    modifies nodeList
    ensures nodeList.items == ZLeftPass(old(nodeList.items), m, n)
  {
    ghost var s0 := nodeList.items;
    var x := 0;
    var i := 0;
    while i < n
      invariant 0 <= i <= n && x == i * m
      invariant DoneUpTo(nodeList.items, ZLeftPass(s0, m, n), s0, x)
    {
      var j := 0;
      while j < m
        invariant 0 <= j <= m && x == i * m + j
        invariant DoneUpTo(nodeList.items, ZLeftPass(s0, m, n), s0, x)
      {
        IndexBound(i, j, m, n);
        ZLeftStep(s0, nodeList.items, m, n, x);
        var nd := nodeList.items[x];
        nodeList.items := nodeList.items[x := nd.(zLeft := TripletCode(nd.activ, nd.yLeft, nd.wLeft))];
        x := x + 1;
        j := j + 1;
      }
      assert x == (i + 1) * m;
      i := i + 1;
    }
    assert x == m * n;
    assert forall p :: m * n <= p < |s0| ==> ZLeftPass(s0, m, n)[p] == s0[p];
    DoneIsAll(nodeList.items, ZLeftPass(s0, m, n), s0, x);
  }

  /** assign_local_config_vars_node_list: the five passes in order; the list ends up
      classified by the reference definition. */
  method AssignLocalConfigVars(nodeList: NodeList, m: nat, n: nat)
    requires Shaped(nodeList.items, m, n)
    modifies nodeList
    ensures nodeList.items == Classify(old(nodeList.items), m, n)
  {
    AssignWLeft(nodeList, m, n);
    AssignWRight(nodeList, m, n);
    AssignYLeft(nodeList, m, n);
    AssignYRight(nodeList, m, n);
    AssignZLeft(nodeList, m, n);
    PassesAreClassify(old(nodeList.items), m, n);
  }

  // ---------------------------------------------------------------------------------------
  // Choosing and swapping two nodes
  // ---------------------------------------------------------------------------------------

  /** node_difference_test: reports true when the two chosen nodes have different
      activations, and otherwise hands back the flag it was given. */
  function NodeDifferenceTest(n1: nat, n2: nat, nodesDifferent: bool, s: seq<Node>): (r: bool)
    requires n1 < |s| && n2 < |s|
    ensures s[n1].activ != s[n2].activ ==> r
    ensures s[n1].activ == s[n2].activ ==> r == nodesDifferent
  {
    if s[n1].activ != s[n2].activ then true else nodesDifferent
  }

  /** The activations of a list, in order. */
  function Activations(s: seq<Node>): (a: seq<int>)
    ensures |a| == |s|
    ensures forall p :: 0 <= p < |s| ==> a[p] == s[p].activ
  {
    seq(|s|, p requires 0 <= p < |s| => s[p].activ)
  }

  /** The second list after node n1 has been given activation a2 and then node n2 activation
      a1; with n1 == n2 the second write wins. */
  function Interchanged(s2: seq<Node>, a1: int, a2: int, n1: nat, n2: nat): (r: seq<Node>)
    requires n1 < |s2| && n2 < |s2|
    ensures |r| == |s2|
  {
    var t := s2[n1 := s2[n1].(activ := a2)];
    t[n2 := t[n2].(activ := a1)]
  }

  /** interchange_activations_node_list2: reads the two activations of the first list before
      writing either node of the second list, so it works even when both names denote the
      same list. */
  method InterchangeActivations(n1: nat, n2: nat, nodeList: NodeList, nodeList2: NodeList)
    requires n1 < |nodeList.items| && n2 < |nodeList.items|
    requires n1 < |nodeList2.items| && n2 < |nodeList2.items|
    modifies nodeList2
    ensures nodeList2.items == Interchanged(old(nodeList2.items), old(nodeList.items[n1].activ),
                                            old(nodeList.items[n2].activ), n1, n2)
  {
    var node1OldActiv := nodeList.items[n1].activ;
    var node2OldActiv := nodeList.items[n2].activ;
    nodeList2.items := nodeList2.items[n1 := nodeList2.items[n1].(activ := node2OldActiv)];
    nodeList2.items := nodeList2.items[n2 := nodeList2.items[n2].(activ := node1OldActiv)];
  }

  /** Only the activations of nodes n1 and n2 change: node n2 gets a1, node n1 gets a2
      unless it is n2 as well, and every other node and every other field is kept. */
  lemma InterchangedAt(s2: seq<Node>, a1: int, a2: int, n1: nat, n2: nat, p: nat)
    requires n1 < |s2| && n2 < |s2| && p < |s2|
    ensures var r := Interchanged(s2, a1, a2, n1, n2);
      r[p] == s2[p].(activ := r[p].activ) &&
      r[p].activ == (if p == n2 then a1 else if p == n1 then a2 else s2[p].activ)
  {
  }

  /** Swapping within a copy of the list exchanges the two activations: the activations of
      the result are the original ones with positions n1 and n2 exchanged. */
  lemma InterchangeIsSwap(s: seq<Node>, n1: nat, n2: nat)
    requires n1 < |s| && n2 < |s|
    ensures Activations(Interchanged(s, s[n1].activ, s[n2].activ, n1, n2))
            == Activations(s)[n1 := s[n2].activ][n2 := s[n1].activ]
  {
  }

  /** The swap keeps the multiset of activations, and choosing the same node twice leaves
      the list as it was. */
  lemma InterchangeKeepsActivations(s: seq<Node>, n1: nat, n2: nat)
    requires n1 < |s| && n2 < |s|
    ensures multiset(Activations(Interchanged(s, s[n1].activ, s[n2].activ, n1, n2))) == multiset(Activations(s))
    ensures n1 == n2 ==> Interchanged(s, s[n1].activ, s[n2].activ, n1, n2) == s
  {
    InterchangeIsSwap(s, n1, n2);
    SwapKeepsMultiset(Activations(s), n1, n2);
    if n1 == n2 {
      assert Interchanged(s, s[n1].activ, s[n2].activ, n1, n2) == s;
    }
  }

  /** The swap changes the list exactly when the difference test, started from false,
      reports the nodes as different. */
  lemma InterchangeChangesIffDifferent(s: seq<Node>, n1: nat, n2: nat)
    requires n1 < |s| && n2 < |s|
    ensures Interchanged(s, s[n1].activ, s[n2].activ, n1, n2) != s <==> NodeDifferenceTest(n1, n2, false, s)
  {
    var r := Interchanged(s, s[n1].activ, s[n2].activ, n1, n2);
    if s[n1].activ != s[n2].activ {
      assert r[n2].activ != s[n2].activ;
    } else {
      assert r == s;
    }
  }

  /** Swapping the same two nodes again restores the list. */
  lemma InterchangeInvolution(s: seq<Node>, n1: nat, n2: nat)
    requires n1 < |s| && n2 < |s|
    ensures var r := Interchanged(s, s[n1].activ, s[n2].activ, n1, n2);
      Interchanged(r, r[n1].activ, r[n2].activ, n1, n2) == s
  {
    var r := Interchanged(s, s[n1].activ, s[n2].activ, n1, n2);
    var q := Interchanged(r, r[n1].activ, r[n2].activ, n1, n2);
    assert forall p :: 0 <= p < |s| ==> q[p] == s[p];
  }

  // ---------------------------------------------------------------------------------------
  // Aggregating the configuration variables
  // ---------------------------------------------------------------------------------------

  /** Whether a node is counted in slot k of the twelve configuration variables: slots 0-2
      are yLeft codes 1-3, slots 3-5 wLeft codes 1-3 and slots 6-11 zLeft codes 1-6. */
  predicate InSlot(nd: Node, k: nat)
  {
    if k < 3 then nd.yLeft == k + 1
    else if k < 6 then nd.wLeft == k - 2
    else nd.zLeft == k - 5
  }

  /** Number of the first x nodes counted in slot k. */
  function Tally(s: seq<Node>, k: nat, x: nat): (c: nat)
    requires x <= |s|
    ensures c <= x
  {
    if x == 0 then 0 else Tally(s, k, x - 1) + (if InSlot(s[x - 1], k) then 1 else 0)
  }

  /** A tally over the grid's M*N nodes, added to the incoming value of its slot, as a
      fraction of M*N. */
  function Fraction(incoming: real, count: nat, total: nat): real
    requires total > 0
  {
    (incoming + count as real) / total as real
  }

  /** The configuration variables after aggregation: each of the twelve slots becomes its
      incoming value plus its tally over the M*N grid nodes, divided by M*N. */
  function Fractions(v: seq<real>, s: seq<Node>, m: nat, n: nat): (r: seq<real>)
    requires |v| >= 12 && 0 < m * n <= |s|
    ensures |r| == |v|
    ensures forall k :: 12 <= k < |v| ==> r[k] == v[k]
  {
    seq(|v|, k requires 0 <= k < |v| =>
      if k < 12 then Fraction(v[k], Tally(s, k, m * n), m * n) else v[k])
  }

  /** The twelve running counters of the aggregation, Y1-Y3, W1-W3 and Z1-Z6. */
  datatype Tallies = Tallies(y1: int, y2: int, y3: int, w1: int, w2: int, w3: int,
                             z1: int, z2: int, z3: int, z4: int, z5: int, z6: int)

  /** The counters after one more node: every counter whose code the node carries goes up
      by one. */
  function CountNode(t: Tallies, nd: Node): Tallies
  {
    Tallies(t.y1 + (if nd.yLeft == 1 then 1 else 0), t.y2 + (if nd.yLeft == 2 then 1 else 0),
            t.y3 + (if nd.yLeft == 3 then 1 else 0), t.w1 + (if nd.wLeft == 1 then 1 else 0),
            t.w2 + (if nd.wLeft == 2 then 1 else 0), t.w3 + (if nd.wLeft == 3 then 1 else 0),
            t.z1 + (if nd.zLeft == 1 then 1 else 0), t.z2 + (if nd.zLeft == 2 then 1 else 0),
            t.z3 + (if nd.zLeft == 3 then 1 else 0), t.z4 + (if nd.zLeft == 4 then 1 else 0),
            t.z5 + (if nd.zLeft == 5 then 1 else 0), t.z6 + (if nd.zLeft == 6 then 1 else 0))
  }

  /** The counters after the first x nodes, counted front to back. */
  function TalliesUpTo(s: seq<Node>, x: nat): Tallies
    requires x <= |s|
  {
    if x == 0 then Tallies(0, 0, 0, 0, 0, 0, 0, 0, 0, 0, 0, 0)
    else CountNode(TalliesUpTo(s, x - 1), s[x - 1])
  }

  /** Each running counter holds the tally of its slot. */
  lemma {:induction false} TalliesAreTally(s: seq<Node>, x: nat)
    requires x <= |s|
    ensures TalliesUpTo(s, x) ==
      Tallies(Tally(s, 0, x), Tally(s, 1, x), Tally(s, 2, x), Tally(s, 3, x), Tally(s, 4, x), Tally(s, 5, x),
              Tally(s, 6, x), Tally(s, 7, x), Tally(s, 8, x), Tally(s, 9, x), Tally(s, 10, x), Tally(s, 11, x))
  {
    if x > 0 {
      TalliesAreTally(s, x - 1);
    }
  }

  /** The body of the counting loop of obtain_actual_config_vars_list: one test per
      counter, each adding one when the node carries that counter's code. */
  method CountCodes(nd: Node, t: Tallies) returns (r: Tallies)
    ensures r == CountNode(t, nd)
  {
    var y1, y2, y3, w1, w2, w3 := t.y1, t.y2, t.y3, t.w1, t.w2, t.w3;
    var z1, z2, z3, z4, z5, z6 := t.z1, t.z2, t.z3, t.z4, t.z5, t.z6;
    if nd.yLeft == 1 { y1 := y1 + 1; }
    if nd.yLeft == 2 { y2 := y2 + 1; }
    if nd.yLeft == 3 { y3 := y3 + 1; }
    if nd.wLeft == 1 { w1 := w1 + 1; }
    if nd.wLeft == 2 { w2 := w2 + 1; }
    if nd.wLeft == 3 { w3 := w3 + 1; }
    if nd.zLeft == 1 { z1 := z1 + 1; }
    if nd.zLeft == 2 { z2 := z2 + 1; }
    if nd.zLeft == 3 { z3 := z3 + 1; }
    if nd.zLeft == 4 { z4 := z4 + 1; }
    if nd.zLeft == 5 { z5 := z5 + 1; }
    if nd.zLeft == 6 { z6 := z6 + 1; }
    r := Tallies(y1, y2, y3, w1, w2, w3, z1, z2, z3, z4, z5, z6);
  }

  /** The counting loops of obtain_actual_config_vars_list: the twelve counters over the
      M*N grid nodes, row by row. */
  method TallyCodes(s: seq<Node>, m: nat, n: nat) returns (t: Tallies)
    requires m * n <= |s|
    ensures t == TalliesUpTo(s, m * n)
  {
    t := Tallies(0, 0, 0, 0, 0, 0, 0, 0, 0, 0, 0, 0);
    var x := 0;
    var i := 0;
    while i < n
      invariant 0 <= i <= n && x == i * m && x <= m * n
      invariant t == TalliesUpTo(s, x)
    {
      var j := 0;
      while j < m
        invariant 0 <= j <= m && x == i * m + j && x <= m * n
        invariant t == TalliesUpTo(s, x)
      {
        IndexBound(i, j, m, n);
        t := CountCodes(s[x], t);
        x := x + 1;
        j := j + 1;
      }
      assert x == (i + 1) * m;
      i := i + 1;
    }
    assert x == m * n;
  }

  /** obtain_actual_config_vars_list: tallies the yLeft, wLeft and zLeft codes of the M*N
      grid nodes and writes back, slot by slot, the incoming value plus the tally divided
      by M*N. */
  method ObtainActualConfigVars(configVars: MutableList<real>, nodeList: NodeList, m: nat, n: nat)
    requires |configVars.items| >= 12 && 0 < m * n <= |nodeList.items|
    modifies configVars
    ensures configVars.items == Fractions(old(configVars.items), nodeList.items, m, n)
  {
    var v := configVars.items;
    var s := nodeList.items;
    var t := TallyCodes(s, m, n);
    TalliesAreTally(s, m * n);
    var totalNodes: nat := m * n;
    WriteBackIsFractions(v, s, m, n, [t.y1, t.y2, t.y3, t.w1, t.w2, t.w3, t.z1, t.z2, t.z3, t.z4, t.z5, t.z6]);
    configVars.items := v[0 := Fraction(v[0], t.y1, totalNodes)][1 := Fraction(v[1], t.y2, totalNodes)]
                         [2 := Fraction(v[2], t.y3, totalNodes)][3 := Fraction(v[3], t.w1, totalNodes)]
                         [4 := Fraction(v[4], t.w2, totalNodes)][5 := Fraction(v[5], t.w3, totalNodes)]
                         [6 := Fraction(v[6], t.z1, totalNodes)][7 := Fraction(v[7], t.z2, totalNodes)]
                         [8 := Fraction(v[8], t.z3, totalNodes)][9 := Fraction(v[9], t.z4, totalNodes)]
                         [10 := Fraction(v[10], t.z5, totalNodes)][11 := Fraction(v[11], t.z6, totalNodes)];
  }

  /** Writing the twelve tallies back as fractions, slot by slot, gives the aggregated
      configuration variables. */
  lemma WriteBackIsFractions(v: seq<real>, s: seq<Node>, m: nat, n: nat, c: seq<nat>)
    requires |v| >= 12 && 0 < m * n <= |s| && |c| == 12
    requires forall k :: 0 <= k < 12 ==> c[k] == Tally(s, k, m * n)
    ensures v[0 := Fraction(v[0], c[0], m * n)][1 := Fraction(v[1], c[1], m * n)]
             [2 := Fraction(v[2], c[2], m * n)][3 := Fraction(v[3], c[3], m * n)]
             [4 := Fraction(v[4], c[4], m * n)][5 := Fraction(v[5], c[5], m * n)]
             [6 := Fraction(v[6], c[6], m * n)][7 := Fraction(v[7], c[7], m * n)]
             [8 := Fraction(v[8], c[8], m * n)][9 := Fraction(v[9], c[9], m * n)]
             [10 := Fraction(v[10], c[10], m * n)][11 := Fraction(v[11], c[11], m * n)]
            == Fractions(v, s, m, n)
  {
    var r := v[0 := Fraction(v[0], c[0], m * n)][1 := Fraction(v[1], c[1], m * n)]
              [2 := Fraction(v[2], c[2], m * n)][3 := Fraction(v[3], c[3], m * n)]
              [4 := Fraction(v[4], c[4], m * n)][5 := Fraction(v[5], c[5], m * n)]
              [6 := Fraction(v[6], c[6], m * n)][7 := Fraction(v[7], c[7], m * n)]
              [8 := Fraction(v[8], c[8], m * n)][9 := Fraction(v[9], c[9], m * n)]
              [10 := Fraction(v[10], c[10], m * n)][11 := Fraction(v[11], c[11], m * n)];
    var f := Fractions(v, s, m, n);
    forall k | 0 <= k < |v|
      ensures r[k] == f[k]
    {
      if k < 12 {
        assert r[k] == Fraction(v[k], c[k], m * n);
      }
    }
  }

  /** When every one of the first x nodes has a yLeft code in {1,2,3}, the three y
      tallies add up to x: each node is counted in exactly one of them. */
  lemma {:induction false} YTalliesSum(s: seq<Node>, x: nat)
    requires x <= |s|
    requires forall p :: 0 <= p < x ==> 1 <= s[p].yLeft <= 3
    ensures Tally(s, 0, x) + Tally(s, 1, x) + Tally(s, 2, x) == x
  {
    if x > 0 {
      YTalliesSum(s, x - 1);
    }
  }

  /** The same for the wLeft codes and the three w tallies. */
  lemma {:induction false} WTalliesSum(s: seq<Node>, x: nat)
    requires x <= |s|
    requires forall p :: 0 <= p < x ==> 1 <= s[p].wLeft <= 3
    ensures Tally(s, 3, x) + Tally(s, 4, x) + Tally(s, 5, x) == x
  {
    if x > 0 {
      WTalliesSum(s, x - 1);
    }
  }

  /** The same for the zLeft codes in {1..6} and the six z tallies. */
  lemma {:induction false} ZTalliesSum(s: seq<Node>, x: nat)
    requires x <= |s|
    requires forall p :: 0 <= p < x ==> 1 <= s[p].zLeft <= 6
    ensures Tally(s, 6, x) + Tally(s, 7, x) + Tally(s, 8, x) + Tally(s, 9, x) +
            Tally(s, 10, x) + Tally(s, 11, x) == x
  {
    if x > 0 {
      ZTalliesSum(s, x - 1);
    }
  }

  /** Fractions of the same total from a zero start add up as their counts do. */
  lemma FractionAdd(a: nat, b: nat, d: nat)
    requires d > 0
    ensures Fraction(0.0, a, d) + Fraction(0.0, b, d) == Fraction(0.0, a + b, d)
  {
  }

  /** A count of at most the total is a fraction in [0, 1]. */
  lemma FractionUnit(a: nat, d: nat)
    requires 0 < d && a <= d
    ensures 0.0 <= Fraction(0.0, a, d) <= 1.0
  {
    var q := Fraction(0.0, a, d);
    assert q * (d as real) == a as real;
  }

  /** The whole total is the fraction 1. */
  lemma FractionWhole(d: nat)
    requires 0 < d
    ensures Fraction(0.0, d, d) == 1.0
  {
    assert (0.0 + d as real) == d as real;
  }

  /** Three counts that make up the total give fractions adding up to 1. */
  lemma ThreeFractionsSumToOne(a: nat, b: nat, c: nat, d: nat)
    requires d > 0 && a + b + c == d
    ensures Fraction(0.0, a, d) + Fraction(0.0, b, d) + Fraction(0.0, c, d) == 1.0
  {
    FractionAdd(a, b, d);
    FractionAdd(a + b, c, d);
    FractionWhole(d);
  }

  /** Six counts that make up the total give fractions adding up to 1. */
  lemma SixFractionsSumToOne(a: nat, b: nat, c: nat, e: nat, f: nat, g: nat, d: nat)
    requires d > 0 && a + b + c + e + f + g == d
    ensures Fraction(0.0, a, d) + Fraction(0.0, b, d) + Fraction(0.0, c, d) +
            Fraction(0.0, e, d) + Fraction(0.0, f, d) + Fraction(0.0, g, d) == 1.0
  {
    FractionAdd(a, b, d);
    FractionAdd(a + b, c, d);
    FractionAdd(a + b + c, e, d);
    FractionAdd(a + b + c + e, f, d);
    FractionAdd(a + b + c + e + f, g, d);
    FractionWhole(d);
  }

  /** Every grid node of a classified list has a yLeft and a wLeft code in {1,2,3} and a
      zLeft code in {1..6}. */
  lemma ClassifiedCodesInRange(s: seq<Node>, m: nat, n: nat)
    requires Shaped(s, m, n)
    ensures forall p :: 0 <= p < m * n ==>
      1 <= Classify(s, m, n)[p].yLeft <= 3 && 1 <= Classify(s, m, n)[p].wLeft <= 3 &&
      1 <= Classify(s, m, n)[p].zLeft <= 6
  {
    forall p | 0 <= p < m * n
      ensures 1 <= Classify(s, m, n)[p].yLeft <= 3 && 1 <= Classify(s, m, n)[p].wLeft <= 3 &&
              1 <= Classify(s, m, n)[p].zLeft <= 6
    {
      ClassifyCodes(s, m, n, p);
    }
  }

  /** On a classified list with zero incoming values every fraction lies in [0, 1]. */
  lemma FractionsOfClassifiedBounded(v: seq<real>, s: seq<Node>, m: nat, n: nat, k: nat)
    requires |v| >= 12 && 0 < m * n && Shaped(s, m, n) && k < 12
    requires forall q :: 0 <= q < 12 ==> v[q] == 0.0
    ensures 0.0 <= Fractions(v, Classify(s, m, n), m, n)[k] <= 1.0
  {
    FractionUnit(Tally(Classify(s, m, n), k, m * n), m * n);
  }

  /** On a classified list with zero incoming values the y fractions, the w fractions and
      the z fractions each add up to 1: each group counts every grid node once. */
  lemma FractionsOfClassifiedSumToOne(v: seq<real>, s: seq<Node>, m: nat, n: nat)
    requires |v| >= 12 && 0 < m * n && Shaped(s, m, n)
    requires forall k :: 0 <= k < 12 ==> v[k] == 0.0
    ensures var f := Fractions(v, Classify(s, m, n), m, n);
      f[0] + f[1] + f[2] == 1.0 &&
      f[3] + f[4] + f[5] == 1.0 &&
      f[6] + f[7] + f[8] + f[9] + f[10] + f[11] == 1.0
  {
    var c := Classify(s, m, n);
    var d := m * n;
    ClassifiedCodesInRange(s, m, n);
    YTalliesSum(c, d);
    WTalliesSum(c, d);
    ZTalliesSum(c, d);
    var f := Fractions(v, c, m, n);
    assert forall k :: 0 <= k < 12 ==> f[k] == Fraction(0.0, Tally(c, k, d), d);
    ThreeFractionsSumToOne(Tally(c, 0, d), Tally(c, 1, d), Tally(c, 2, d), d);
    ThreeFractionsSumToOne(Tally(c, 3, d), Tally(c, 4, d), Tally(c, 5, d), d);
    SixFractionsSumToOne(Tally(c, 6, d), Tally(c, 7, d), Tally(c, 8, d),
                         Tally(c, 9, d), Tally(c, 10, d), Tally(c, 11, d), d);
  }

  // ---------------------------------------------------------------------------------------
  // The display list
  // ---------------------------------------------------------------------------------------

  /** The display list: the incoming values, the M*N activations of the first list, the M*N
      activations of the second, then positions M*N + n1 and M*N + n2 overwritten by the
      marks of the two chosen nodes' activations in the first list. */
  function TurtleGrid(t0: seq<int>, s1: seq<Node>, s2: seq<Node>, m: nat, n: nat, n1: nat, n2: nat): (r: seq<int>)
    requires m * n <= |s1| && m * n <= |s2| && n1 < |s1| && n2 < |s1|
    requires m * n + n1 < |t0| + 2 * (m * n) && m * n + n2 < |t0| + 2 * (m * n)
    ensures |r| == |t0| + 2 * (m * n)
  {
    var base := t0 + Activations(s1[..m * n]) + Activations(s2[..m * n]);
    base[m * n + n1 := Mark(s1[n1].activ)][m * n + n2 := Mark(s1[n2].activ)]
  }

  /** One of the two copying loops of obtain_turtle_grid_list: appends the activations of
      the first M*N nodes of a list to the display list, row by row. */
  method AppendActivations(turtle: MutableList<int>, s: seq<Node>, m: nat, n: nat)
    requires m * n <= |s|
    modifies turtle
    ensures turtle.items == old(turtle.items) + Activations(s[..m * n])
  {
    var x := 0;
    var i := 0;
    while i < n
      invariant 0 <= i <= n && x == i * m && x <= m * n
      invariant turtle.items == old(turtle.items) + Activations(s[..x])
    {
      var j := 0;
      while j < m
        invariant 0 <= j <= m && x == i * m + j && x <= m * n
        invariant turtle.items == old(turtle.items) + Activations(s[..x])
      {
        IndexBound(i, j, m, n);
        assert Activations(s[..x + 1]) == Activations(s[..x]) + [s[x].activ];
        turtle.items := turtle.items + [s[x].activ];
        x := x + 1;
        j := j + 1;
      }
      assert x == (i + 1) * m;
      i := i + 1;
    }
    assert x == m * n;
  }

  /** obtain_turtle_grid_list: appends both lists' activations to the display list and
      marks the two swapped nodes. */
  method ObtainTurtleGridList(turtle: MutableList<int>, nodeList: NodeList, nodeList2: NodeList,
                              m: nat, n: nat, n1: nat, n2: nat)
    requires m * n <= |nodeList.items| && m * n <= |nodeList2.items|
    requires n1 < |nodeList.items| && n2 < |nodeList.items|
    requires m * n + n1 < |turtle.items| + 2 * (m * n) && m * n + n2 < |turtle.items| + 2 * (m * n)
    modifies turtle
    ensures turtle.items == TurtleGrid(old(turtle.items), nodeList.items, nodeList2.items, m, n, n1, n2)
  {
    var s1, s2 := nodeList.items, nodeList2.items;
    var arraySize := m * n;
    AppendActivations(turtle, s1, m, n);
    AppendActivations(turtle, s2, m, n);
    if s1[n1].activ == 0 {
      turtle.items := turtle.items[arraySize + n1 := 3];
    } else {
      turtle.items := turtle.items[arraySize + n1 := 2];
    }
    if s1[n2].activ == 0 {
      turtle.items := turtle.items[arraySize + n2 := 3];
    } else {
      turtle.items := turtle.items[arraySize + n2 := 2];
    }
  }

  /** Built from an empty display list with both nodes in the grid, the list holds the first
      list's activations, then the second list's, except that the two chosen nodes of the
      second half show their marks. */
  lemma TurtleGridContents(s1: seq<Node>, s2: seq<Node>, m: nat, n: nat, n1: nat, n2: nat, p: nat)
    requires m * n <= |s1| && m * n <= |s2| && n1 < m * n && n2 < m * n
    requires p < 2 * (m * n)
    ensures var r := TurtleGrid([], s1, s2, m, n, n1, n2);
      |r| == 2 * (m * n) &&
      (p < m * n ==> r[p] == s1[p].activ) &&
      (m * n <= p && p - m * n != n1 && p - m * n != n2 ==> r[p] == s2[p - m * n].activ) &&
      (m * n <= p && (p - m * n == n1 || p - m * n == n2) ==> r[p] == Mark(s1[p - m * n].activ))
  {
  }
}
