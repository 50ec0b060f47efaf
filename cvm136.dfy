/** The lattice engine of the oldest snapshot (1pt3pt6): one procedure switches on the
    hard-coded pattern and then records, for each node, whether its left and its right
    neighbour are on (raw values 0/1, not pair codes). Its left neighbour at column 0 is read
    through index q - 1 with q the row's first node, which is the previous node in list
    order: Python index -1, the last node of the list, on row 0, and the last node of the
    row above on every other row. */
module Cvm136 {
  import opened Arith
  import opened Codes
  import opened Lists
  import opened NodeGrid

  // ---------------------------------------------------------------------------------------
  // Neighbour addressing as written
  // ---------------------------------------------------------------------------------------

  /** Python's reading of a list index: a negative index counts from the end of the list. */
  function PyIndex(k: int, len: nat): (p: nat)
    requires -(len as int) <= k < len
    ensures p < len
  {
    if k < 0 then len + k else k
  }

  /** The node the 1pt3pt6 wLeft pass reads for node x of a list of len nodes: index q - 1 at
      column 0 (q = x there) and x - 1 elsewhere, so always the previous node of the whole
      list taken as a ring. */
  function RawLeftOf(len: nat, m: nat, n: nat, x: nat): (r: nat)
    requires x < m * n <= len
    ensures r < len
    ensures r == (x + len - 1) % len
  {
    ModSmall(x + len - 1, len);
    PyIndex(x - 1, len)
  }

  /** On row 0 the column-0 read is Python index -1: the last node of the whole list, which
      for a list of exactly M*N nodes is the last node of the LAST row. */
  lemma RowZeroWrapReadsLast(len: nat, m: nat, n: nat)
    requires 0 < m * n <= len
    ensures RawLeftOf(len, m, n, 0) == len - 1
    ensures len == m * n ==> (len - 1) / m == n - 1 && (len - 1) % m == m - 1
  {
    if len == m * n {
      RowBound(len - 1, m, n);
      Arith.RowCol(n - 1, m - 1, m);
      assert (n - 1) * m + (m - 1) == len - 1;
    }
  }

  /** On a later row i the column-0 read is the last node of row i - 1, where the same-row
      neighbour of the newer snapshots is the last node of row i itself. */
  lemma {:induction false} ColumnZeroReadsRowAbove(len: nat, m: nat, n: nat, i: nat)
    requires 0 < i < n && m * n <= len && m > 0
    ensures i * m < m * n
    ensures RawLeftOf(len, m, n, i * m) == i * m - 1
    ensures (i * m - 1) / m == i - 1
    ensures LeftOf(m, n, i * m) == (i + 1) * m - 1 && ((i + 1) * m - 1) / m == i
  {
    IndexBound(i, 0, m, n);
    RowCol(i - 1, m - 1, m);
    assert (i - 1) * m + (m - 1) == i * m - 1;
    LeftAt(i, 0, m, n, i * m);
    RowCol(i, m - 1, m);
    assert i * m + (m - 1) == (i + 1) * m - 1;
  }

  /** The demonstration grid of 12 columns and 2 rows: node 12 (row 1, column 0) reads node 11
      at the end of row 0 instead of node 23 at the end of its own row, and node 0 reads
      node 23 at the end of row 1 instead of node 11. */
  lemma DemoGridColumnZeroReads()
    ensures RawLeftOf(24, 12, 2, 12) == 11 && LeftOf(12, 2, 12) == 23
    ensures RawLeftOf(24, 12, 2, 0) == 23 && LeftOf(12, 2, 0) == 11
  {
    ColumnZeroReadsRowAbove(24, 12, 2, 1);
    LeftAt(0, 0, 12, 2, 0);
  }

  // ---------------------------------------------------------------------------------------
  // The two raw passes
  // ---------------------------------------------------------------------------------------

  /** The wLeft pass as a function of the list it starts from: 0 when the node read is off,
      1 otherwise. */
  function RawWLeftPass(s: seq<Node>, m: nat, n: nat): (r: seq<Node>)
    requires m * n <= |s|
    ensures |r| == |s|
  {
    seq(|s|, x requires 0 <= x < |s| =>
      if x < m * n then s[x].(wLeft := RawCode(s[RawLeftOf(|s|, m, n, x)].activ)) else s[x])
  }

  /** The wRight pass as a function of the list it starts from; its right neighbour is the
      same-row one of the newer snapshots. */
  function RawWRightPass(s: seq<Node>, m: nat, n: nat): (r: seq<Node>)
    requires m * n <= |s|
    ensures |r| == |s|
  {
    seq(|s|, x requires 0 <= x < |s| =>
      if x < m * n then s[x].(wRight := RawCode(s[RightOf(m, n, x)].activ)) else s[x])
  }

  /** Reference definition of a filled list: the pattern switched on, then both raw values
      of every grid node computed at once from the activations. */
  function Filled(s: seq<Node>, m: nat, n: nat): (r: seq<Node>)
    requires m * n <= |s|
    ensures |r| == |s|
  {
    var a := Activated(s, m, n);
    seq(|s|, x requires 0 <= x < |s| =>
      if x < m * n then
        a[x].(wLeft := RawCode(a[RawLeftOf(|s|, m, n, x)].activ),
              wRight := RawCode(a[RightOf(m, n, x)].activ))
      else a[x])
  }

  /** The pattern, then the two raw passes in the source's order, give the reference filled
      list: the wLeft pass changes no activation, so the wRight pass reads the same ones. */
  lemma PassesAreFilled(s: seq<Node>, m: nat, n: nat)
    requires m * n <= |s|
    ensures RawWRightPass(RawWLeftPass(Activated(s, m, n), m, n), m, n) == Filled(s, m, n)
  {
    var a := Activated(s, m, n);
    var s1 := RawWLeftPass(a, m, n);
    assert forall p :: 0 <= p < |s| ==> s1[p].activ == a[p].activ;
    assert forall x :: 0 <= x < |s| ==> RawWRightPass(s1, m, n)[x] == Filled(s, m, n)[x];
  }

  /** Filling changes no identity field and no activation beyond the pattern's, and writes
      only the values 0 and 1; nodes past M*N only get the pattern's treatment. */
  lemma FilledValues(s: seq<Node>, m: nat, n: nat, x: nat)
    requires m * n <= |s| && x < |s|
    ensures var r := Filled(s, m, n)[x];
      r.nodeNum == s[x].nodeNum && r.row == s[x].row && r.col == s[x].col &&
      r.activ == Activated(s, m, n)[x].activ
    ensures x < m * n ==> Binary(Filled(s, m, n)[x].wLeft) && Binary(Filled(s, m, n)[x].wRight)
    ensures x >= m * n ==> Filled(s, m, n)[x] == s[x]
  {
  }

  /** The passes leave the activations the pattern produced. */
  lemma FilledKeepsActivations(s: seq<Node>, m: nat, n: nat)
    requires m * n <= |s|
    ensures Activations(Filled(s, m, n)) == Activations(Activated(s, m, n))
  {
  }

  /** With binary activations the raw values copy the neighbours' activations: they do not
      depend on the node's own activation, unlike the pair codes of the newer snapshots. */
  lemma FilledMeaning(s: seq<Node>, m: nat, n: nat, x: nat)
    requires m * n <= |s| && x < m * n
    requires forall p :: 0 <= p < |s| ==> Binary(s[p].activ)
    ensures var a := Activated(s, m, n);
      Filled(s, m, n)[x].wLeft == a[RawLeftOf(|s|, m, n, x)].activ &&
      Filled(s, m, n)[x].wRight == a[RightOf(m, n, x)].activ
  {
    var a := Activated(s, m, n);
    var l, r := RawLeftOf(|s|, m, n, x), RightOf(m, n, x);
    ActivatedOnlyTurnsOn(s, m, n, l);
    ActivatedOnlyTurnsOn(s, m, n, r);
  }

  // ---------------------------------------------------------------------------------------
  // fill_values_node_list, in place
  // ---------------------------------------------------------------------------------------

  /** One node of the wLeft pass. */
  lemma RawWLeftStep(s0: seq<Node>, t: seq<Node>, m: nat, n: nat, x: nat)
    requires m * n <= |s0| && x < m * n
    requires DoneUpTo(t, RawWLeftPass(s0, m, n), s0, x)
    ensures DoneUpTo(t[x := t[x].(wLeft := RawCode(t[RawLeftOf(|t|, m, n, x)].activ))],
                     RawWLeftPass(s0, m, n), s0, x + 1)
  {
    var l := RawLeftOf(|t|, m, n, x);
    assert t[l].activ == s0[l].activ;
  }

  /** One node of the wRight pass. */
  lemma RawWRightStep(s0: seq<Node>, t: seq<Node>, m: nat, n: nat, x: nat)
    requires m * n <= |s0| && x < m * n
    requires DoneUpTo(t, RawWRightPass(s0, m, n), s0, x)
    ensures DoneUpTo(t[x := t[x].(wRight := RawCode(t[RightOf(m, n, x)].activ))],
                     RawWRightPass(s0, m, n), s0, x + 1)
  {
    var r := RightOf(m, n, x);
    assert t[r].activ == s0[r].activ;
  }

  /** The body of the wLeft loop for node x at row i, column j: reads index q - 1 (Python
      index -1 on row 0) at column 0 and x - 1 elsewhere, and records 0 when that node is
      off, 1 otherwise. */
  method RawWLeftNode(nodeList: NodeList, m: nat, n: nat, i: nat, j: nat, x: nat)
    requires m * n <= |nodeList.items| && i < n && j < m && x == i * m + j
    modifies nodeList
    ensures x < m * n
    ensures nodeList.items == old(nodeList.items)[x := old(nodeList.items)[x].(
              wLeft := RawCode(old(nodeList.items)[RawLeftOf(|old(nodeList.items)|, m, n, x)].activ))]
  {
    IndexBound(i, j, m, n);
    var q := m * i;
    if j == 0 {
      if nodeList.items[PyIndex(q - 1, |nodeList.items|)].activ == 0 {
        nodeList.items := nodeList.items[x := nodeList.items[x].(wLeft := 0)];
      } else {
        nodeList.items := nodeList.items[x := nodeList.items[x].(wLeft := 1)];
      }
    } else {
      if nodeList.items[x - 1].activ == 0 {
        nodeList.items := nodeList.items[x := nodeList.items[x].(wLeft := 0)];
      } else {
        nodeList.items := nodeList.items[x := nodeList.items[x].(wLeft := 1)];
      }
    }
  }

  /** The body of the wRight loop for node x at row i, column j: reads node q = i*M at the
      last column and x + 1 elsewhere. The source tests node x + 1 twice in a row; the second
      test repeats one that has just failed. */
  method RawWRightNode(nodeList: NodeList, m: nat, n: nat, i: nat, j: nat, x: nat)
    requires m * n <= |nodeList.items| && i < n && j < m && x == i * m + j
    modifies nodeList
    ensures x < m * n
    ensures nodeList.items == old(nodeList.items)[x := old(nodeList.items)[x].(
              wRight := RawCode(old(nodeList.items)[RightOf(m, n, x)].activ))]
  {
    RightAt(i, j, m, n, x);
    var q := m * i;
    if j == m - 1 {
      if nodeList.items[q].activ == 0 {
        nodeList.items := nodeList.items[x := nodeList.items[x].(wRight := 0)];
      } else {
        nodeList.items := nodeList.items[x := nodeList.items[x].(wRight := 1)];
      }
    } else {
      if nodeList.items[x + 1].activ == 0 {
        nodeList.items := nodeList.items[x := nodeList.items[x].(wRight := 0)];
      } else {
        if nodeList.items[x + 1].activ == 0 {
          // The source writes 0 here; the test has just failed, so this cannot happen.
          assert false;
        } else {
          nodeList.items := nodeList.items[x := nodeList.items[x].(wRight := 1)];
        }
      }
    }
  }

  /** The column loop of the wLeft pass on row i, starting at x = i*M. */
  method RawWLeftRow(nodeList: NodeList, m: nat, n: nat, i: nat, x0: nat, ghost s0: seq<Node>)
    returns (x: nat)
    requires m * n <= |s0| && i < n && x0 == i * m
    requires DoneUpTo(nodeList.items, RawWLeftPass(s0, m, n), s0, x0)
    modifies nodeList
    ensures x == (i + 1) * m
    ensures DoneUpTo(nodeList.items, RawWLeftPass(s0, m, n), s0, x)
  {
    assert (i + 1) * m == x0 + m;
    x := x0;
    var j := 0;
    while j < m
      invariant 0 <= j <= m && x == x0 + j
      invariant DoneUpTo(nodeList.items, RawWLeftPass(s0, m, n), s0, x)
    {
      ghost var t := nodeList.items;
      RawWLeftNode(nodeList, m, n, i, j, x);
      RawWLeftStep(s0, t, m, n, x);
      x := x + 1;
      j := j + 1;
    }
  }

  /** The column loop of the wRight pass on row i, starting at x = i*M. */
  method RawWRightRow(nodeList: NodeList, m: nat, n: nat, i: nat, x0: nat, ghost s0: seq<Node>)
    returns (x: nat)
    requires m * n <= |s0| && i < n && x0 == i * m
    requires DoneUpTo(nodeList.items, RawWRightPass(s0, m, n), s0, x0)
    modifies nodeList
    ensures x == (i + 1) * m
    ensures DoneUpTo(nodeList.items, RawWRightPass(s0, m, n), s0, x)
  {
    assert (i + 1) * m == x0 + m;
    x := x0;
    var j := 0;
    while j < m
      invariant 0 <= j <= m && x == x0 + j
      invariant DoneUpTo(nodeList.items, RawWRightPass(s0, m, n), s0, x)
    {
      ghost var t := nodeList.items;
      RawWRightNode(nodeList, m, n, i, j, x);
      RawWRightStep(s0, t, m, n, x);
      x := x + 1;
      j := j + 1;
    }
  }

  /** fill_values_node_list: switches on the pattern, then runs the raw wLeft pass and the
      raw wRight pass over the grid, row by row; the list ends up filled by the reference
      definition. */
  method FillValues(nodeList: NodeList, m: nat, n: nat)
    requires m * n <= |nodeList.items|
    modifies nodeList
    ensures nodeList.items == Filled(old(nodeList.items), m, n)
  {
    AssignActivations(nodeList, m, n);
    ghost var s1 := nodeList.items;
    var x := 0;
    var i := 0;
    while i < n
      invariant 0 <= i <= n && x == i * m
      invariant DoneUpTo(nodeList.items, RawWLeftPass(s1, m, n), s1, x)
    {
      x := RawWLeftRow(nodeList, m, n, i, x, s1);
      i := i + 1;
    }
    assert x == m * n;
    assert forall p :: m * n <= p < |s1| ==> RawWLeftPass(s1, m, n)[p] == s1[p];
    DoneIsAll(nodeList.items, RawWLeftPass(s1, m, n), s1, x);
    ghost var s2 := nodeList.items;
    x := 0;
    i := 0;
    while i < n
      invariant 0 <= i <= n && x == i * m
      invariant DoneUpTo(nodeList.items, RawWRightPass(s2, m, n), s2, x)
    {
      x := RawWRightRow(nodeList, m, n, i, x, s2);
      i := i + 1;
    }
    assert x == m * n;
    assert forall p :: m * n <= p < |s2| ==> RawWRightPass(s2, m, n)[p] == s2[p];
    DoneIsAll(nodeList.items, RawWRightPass(s2, m, n), s2, x);
    PassesAreFilled(old(nodeList.items), m, n);
  }

  // ---------------------------------------------------------------------------------------
  // The display list
  // ---------------------------------------------------------------------------------------

  /** obtain_turtle_grid_list: appends the activations of the M*N grid nodes, in list order,
      to the display list; entry k of the appended part is node k's activation. */
  method ObtainTurtleGridList(turtle: MutableList<int>, nodeList: NodeList, m: nat, n: nat)
    requires m * n <= |nodeList.items|
    modifies turtle
    ensures |turtle.items| == |old(turtle.items)| + m * n
    ensures turtle.items[..|old(turtle.items)|] == old(turtle.items)
    ensures forall k :: 0 <= k < m * n ==> turtle.items[|old(turtle.items)| + k] == nodeList.items[k].activ
  {
    AppendActivations(turtle, nodeList.items, m, n);
  }
}
