/** The node record and grid operations common to the two older snapshots (1pt3pt6 and
    1pt5pt1), whose Node class has only the same-row codes wLeft and wRight. Both snapshots
    build the grid, switch on the hard-coded pattern and copy activations to the display list
    with the same loops. */
module NodeGrid {
  import opened Arith
  import opened Pattern
  import opened Lists

  /** A node record; the program's Node objects are never shared between two lists, so
      they are modelled as values held by the list object. */
  datatype Node = Node(nodeNum: int, row: int, col: int, activ: int, wLeft: int, wRight: int)

  type NodeList = MutableList<Node>

  // ---------------------------------------------------------------------------------------
  // Construction
  // ---------------------------------------------------------------------------------------

  /** Row i of a freshly built grid: every node numbered row-major, all values 0. */
  function GridRow(i: nat, m: nat): (r: seq<Node>)
    ensures |r| == m
  {
    seq(m, j requires 0 <= j < m => Node(i * m + j, i, j, 0, 0, 0))
  }

  /** The first n rows of a freshly built grid, row by row. */
  function Grid(m: nat, n: nat): (g: seq<Node>)
    ensures |g| == m * n
  {
    if n == 0 then [] else Grid(m, n - 1) + GridRow(n - 1, m)
  }

  /** Node x of a fresh grid is numbered x, sits at row x / M and column x % M, and has
      activation and both codes 0. */
  lemma {:induction false} GridAt(m: nat, n: nat, x: nat)
    requires x < m * n
    ensures Grid(m, n)[x] == Node(x, x / m, x % m, 0, 0, 0)
  {
    var g := Grid(m, n);
    assert n > 0;
    if x < m * (n - 1) {
      assert g[x] == Grid(m, n - 1)[x];
      GridAt(m, n - 1, x);
    } else {
      var j := x - (n - 1) * m;
      assert 0 <= j < m;
      assert g[x] == GridRow(n - 1, m)[j];
      RowCol(n - 1, j, m);
    }
  }

  /** obtain_node_list: appends the M*N nodes of a fresh grid to the caller's list. */
  method ObtainNodeList(nodeList: NodeList, m: nat, n: nat)
    modifies nodeList
    ensures nodeList.items == old(nodeList.items) + Grid(m, n)
  {
    var x := 0;
    var i := 0;
    while i < n
      invariant 0 <= i <= n && x == i * m && x <= m * n
      invariant nodeList.items == old(nodeList.items) + Grid(m, i)
    {
      var j := 0;
      while j < m
        invariant 0 <= j <= m && x == i * m + j && x <= m * n
        invariant nodeList.items == old(nodeList.items) + Grid(m, i) + GridRow(i, m)[..j]
      {
        IndexBound(i, j, m, n);
        assert GridRow(i, m)[..j + 1] == GridRow(i, m)[..j] + [Node(x, i, j, 0, 0, 0)];
        nodeList.items := nodeList.items + [Node(x, i, j, 0, 0, 0)];
        x := x + 1;
        j := j + 1;
      }
      assert GridRow(i, m)[..m] == GridRow(i, m);
      assert x == (i + 1) * m;
      i := i + 1;
    }
  }

  // ---------------------------------------------------------------------------------------
  // Activation pattern
  // ---------------------------------------------------------------------------------------

  /** The list after the hard-coded pattern has been applied to its first M*N nodes. */
  function Activated(s: seq<Node>, m: nat, n: nat): (r: seq<Node>)
    requires m * n <= |s|
    ensures |r| == |s|
  {
    seq(|s|, x requires 0 <= x < |s| =>
      if x < m * n && PatternOn(x / m, x % m) then s[x].(activ := 1) else s[x])
  }

  /** The pattern only ever writes activation 1, and writes nothing else: no node is turned
      off, no code or identity field changes, and nodes past M*N are untouched. */
  lemma ActivatedOnlyTurnsOn(s: seq<Node>, m: nat, n: nat, x: nat)
    requires m * n <= |s| && x < |s|
    ensures Activated(s, m, n)[x].activ == 1 || Activated(s, m, n)[x] == s[x]
    ensures s[x].activ == 1 ==> Activated(s, m, n)[x] == s[x]
    ensures Activated(s, m, n)[x] == s[x].(activ := Activated(s, m, n)[x].activ)
    ensures x >= m * n ==> Activated(s, m, n)[x] == s[x]
  {
  }

  /** On a fresh grid the node at row i, column j ends up on exactly when the pattern
      selects (i, j); with M = 12 and N = 2 that is row 0 at columns 0-2, 4-6, 8-10 and
      row 1 at columns 0, 4, 8. */
  lemma ActivatedFreshGrid(m: nat, n: nat, i: nat, j: nat)
    requires i < n && j < m
    ensures Activated(Grid(m, n), m, n)[i * m + j].activ == (if PatternOn(i, j) then 1 else 0)
    ensures m == 12 && n == 2 ==>
      (Activated(Grid(m, n), m, n)[i * m + j].activ == 1 <==>
        (i == 0 && j in {0, 1, 2, 4, 5, 6, 8, 9, 10}) || (i == 1 && j in {0, 4, 8}))
  {
    IndexBound(i, j, m, n);
    RowCol(i, j, m);
    GridAt(m, n, i * m + j);
  }

  /** One node of the activation pass: node x = i*M + j is switched on exactly when the
      pattern selects (i, j). */
  lemma ActivateStep(s0: seq<Node>, t: seq<Node>, m: nat, n: nat, i: nat, j: nat, x: nat)
    requires m * n <= |s0| && i < n && j < m && x == i * m + j
    requires DoneUpTo(t, Activated(s0, m, n), s0, x)
    ensures x < m * n
    ensures DoneUpTo(if PatternOn(i, j) then t[x := t[x].(activ := 1)] else t, Activated(s0, m, n), s0, x + 1)
  {
    IndexBound(i, j, m, n);
    RowCol(i, j, m);
  }

  /** assign_activations_node_list (and the first loop of fill_values_node_list, which is
      the same code): switches on the pattern's nodes in place. */
  method AssignActivations(nodeList: NodeList, m: nat, n: nat)
    requires m * n <= |nodeList.items|
    modifies nodeList
    ensures nodeList.items == Activated(old(nodeList.items), m, n)
  {
    ghost var s0 := nodeList.items;
    var x := 0;
    var i := 0;
    while i < n
      invariant 0 <= i <= n && x == i * m
      invariant DoneUpTo(nodeList.items, Activated(s0, m, n), s0, x)
    {
      var j := 0;
      while j < m
        invariant 0 <= j <= m && x == i * m + j
        invariant DoneUpTo(nodeList.items, Activated(s0, m, n), s0, x)
      {
        ActivateStep(s0, nodeList.items, m, n, i, j, x);
        ghost var t := nodeList.items;
        if i == 0 {
          if j < 3 {
            nodeList.items := nodeList.items[x := nodeList.items[x].(activ := 1)];
          }
          if j > 3 {
            if j < 7 {
              nodeList.items := nodeList.items[x := nodeList.items[x].(activ := 1)];
            }
          }
          if j > 7 {
            if j < 11 {
              nodeList.items := nodeList.items[x := nodeList.items[x].(activ := 1)];
            }
          }
        }
        if i == 1 {
          if j < 1 {
            nodeList.items := nodeList.items[x := nodeList.items[x].(activ := 1)];
          }
          if j > 3 {
            if j < 5 {
              nodeList.items := nodeList.items[x := nodeList.items[x].(activ := 1)];
            }
          }
          if j > 7 {
            if j < 9 {
              nodeList.items := nodeList.items[x := nodeList.items[x].(activ := 1)];
            }
          }
        }
        assert nodeList.items == if PatternOn(i, j) then t[x := t[x].(activ := 1)] else t;
        x := x + 1;
        j := j + 1;
      }
      assert x == (i + 1) * m;
      i := i + 1;
    }
    assert x == m * n;
    assert forall p :: m * n <= p < |s0| ==> Activated(s0, m, n)[p] == s0[p];
    DoneIsAll(nodeList.items, Activated(s0, m, n), s0, x);
  }

  /** The activations of a list, in order. */
  function Activations(s: seq<Node>): (a: seq<int>)
    ensures |a| == |s|
    ensures forall p :: 0 <= p < |s| ==> a[p] == s[p].activ
  {
    seq(|s|, p requires 0 <= p < |s| => s[p].activ)
  }

  /** The copying loop of obtain_turtle_grid_list (run once in 1pt3pt6, twice in 1pt5pt1):
      appends the activations of the first M*N nodes of a list to the display list, row by
      row. */
  method AppendActivations(turtle: MutableList<int>, s: seq<Node>, m: nat, n: nat)
    requires m * n <= |s|
    modifies turtle
    ensures turtle.items == old(turtle.items) + Activations(s[..m * n])
  {
    var x := 0;
    var i := 0;
    while i < n
      invariant 0 <= i <= n && x == i * m && x <= m * n
      invariant turtle.items == old(turtle.items) + Activations(s[..x])
    {
      var j := 0;
      while j < m
        invariant 0 <= j <= m && x == i * m + j && x <= m * n
        invariant turtle.items == old(turtle.items) + Activations(s[..x])
      {
        IndexBound(i, j, m, n);
        assert Activations(s[..x + 1]) == Activations(s[..x]) + [s[x].activ];
        turtle.items := turtle.items + [s[x].activ];
        x := x + 1;
        j := j + 1;
      }
      assert x == (i + 1) * m;
      i := i + 1;
    }
    assert x == m * n;
  }
}
