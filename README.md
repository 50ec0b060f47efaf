# Simple 1D Cluster Variation Method demos, modelled in Dafny

The demos build a grid of M columns and N rows of nodes. Node x sits at row x / M, column
x % M. The grid is read as a zigzag chain: each even row is joined diagonally to the row
below it, and each odd row to the row above. A hard-coded pattern switches some nodes on
(activation 1, state A); every other node stays 0 (state B).

Each node is then classified from its neighbours' activations, and two lists of nodes are
compared: the original list, and a copy in which two chosen nodes have swapped activations.
For display, both lists' activations are laid out one after the other, and the two swapped
nodes are painted in a marker colour.

The project models three snapshots of the program, one module each.

**`Cvm155`** (1pt5pt5), the newest snapshot. Nodes carry five codes:
- the same-row pair codes wLeft and wRight;
- the diagonal pair codes yLeft and yRight;
- the triplet code zLeft.

The aggregator tallies the yLeft, wLeft and zLeft codes into twelve fractions.

**`Cvm151`** (1pt5pt1). The same grid, but nodes carry only wLeft and wRight. Its effective
`update_config_values_node_list2` returns its argument unchanged.

**`Cvm136`** (1pt3pt6), the oldest snapshot. A single procedure does two things:
1. it switches on the pattern;
2. it records raw 0/1 values saying whether the left and right neighbours are on.

The shared modules:
- `NodeGrid`: the six-field node that 1pt3pt6 and 1pt5pt1 share; building the grid,
  switching on the pattern, copying activations to the display list.
- `Codes`: the pair, triplet and raw codes; same-row neighbour addressing; the display marks.
- `Pattern`: the hard-coded activation rule.
- `Lists`: the list object the program passes around and updates in place.
- `Arith`: row and column arithmetic.

**How the program's data is modelled**
- A Python list that the procedures mutate is a `MutableList` object holding a `seq`.
- Each procedure is a method that changes that object in place.
- A node is a datatype value inside the list. The program never shares a Node object
  between two lists, so no aliasing is lost.

**How each method is specified.** Each method is proved against a reference function of the
list it starts from, for example `Classify`, `Filled` or `Fractions`. The properties are then
proved about those functions.

**Parameters and preconditions**
- The grid dimensions M and N are explicit parameters. The program reads them from a global,
  and sometimes from `array_size_list`.
- The 1pt5pt5 classification requires N to be even. Its diagonal neighbours are only defined
  for paired rows, and the program asks for an even number of rows.
- The aggregation requires M*N > 0. Otherwise the program divides by zero.

**Where the code differs from its comments or description, the model follows the code:**
- On an odd row, the yRight neighbour of the last column is node i*M, inside the node's own
  row. It is not in the row above.
- A swapped node is painted 3 when its activation in the FIRST list is 0, and 2 otherwise.
- `interchange_activations_node_list2` does not refuse two nodes with equal activations.
  Only the caller checks `node_difference_test` first.
- Each fraction is (incoming value + count) / (M*N). The incoming values are zero in the
  program's own use.

The program's own call order:
1. build, activate and classify the first list;
2. build, activate and classify an identical second list;
3. run the difference test;
4. if the nodes differ, swap them in the second list and reclassify it;
5. aggregate both lists (1pt5pt5);
6. build the display list.

## Model

| member | source | states |
|---|---|---|
| NodeGrid.GridAt | simple-1D-CVM-w-turtle-1pt5pt1-2023-11-24.py:552-566 | node x of a fresh grid is numbered x, at row x / M and column x % M, with activation and both codes 0 |
| NodeGrid.ObtainNodeList | simple-1D-CVM-w-turtle-1pt5pt1-2023-11-24.py:552-566 | appends exactly the M*N fresh grid nodes, in row-major order, to the incoming list (1pt3pt6:403-418 is the same loop) |
| NodeGrid.Activated | simple-1D-CVM-w-turtle-1pt5pt1-2023-11-24.py:579-609 | the activation pattern keeps the list's length |
| NodeGrid.ActivatedOnlyTurnsOn | simple-1D-CVM-w-turtle-1pt5pt1-2023-11-24.py:579-609 | the pattern only writes activation 1 and changes no other field; nodes past M*N are untouched |
| NodeGrid.ActivatedFreshGrid | simple-1D-CVM-w-turtle-1pt5pt1-2023-11-24.py:587-607 | on a fresh grid, node (i, j) ends up on exactly when the pattern selects it; for M=12, N=2 that is row 0 at columns {0,1,2,4,5,6,8,9,10} and row 1 at {0,4,8} |
| NodeGrid.ActivateStep | simple-1D-CVM-w-turtle-1pt5pt1-2023-11-24.py:587-607 | one step of the activation loop switches node i*M+j on exactly when the pattern selects (i, j), and extends the finished prefix by one |
| NodeGrid.AssignActivations | simple-1D-CVM-w-turtle-1pt5pt1-2023-11-24.py:579-609 | the in-place nested loops turn the list into `Activated` of the old list (1pt3pt6:439-461 is the same code) |
| NodeGrid.Activations | simple-1D-CVM-w-turtle-1pt5pt1-2023-11-24.py:334-346 | the activation sequence has the list's length and holds node p's activation at p |
| NodeGrid.AppendActivations | simple-1D-CVM-w-turtle-1pt5pt1-2023-11-24.py:334-346 | one copying loop appends exactly the M*N grid activations, in order, to the display list |
| Pattern.PatternOn | simple-1D-CVM-w-turtle-1pt5pt5-2023-11-26.py:675-695 | the nested column tests select exactly row 0 at columns {0,1,2,4,5,6,8,9,10} and row 1 at {0,4,8}, and nothing on other rows |
| Codes.PairCode | simple-1D-CVM-w-turtle-1pt5pt5-2023-11-26.py:734-741 | codes are in {1,2,3}; 1 exactly when both nodes are on; 2 exactly when exactly one is on |
| Codes.PairCodeSymmetric | simple-1D-CVM-w-turtle-1pt5pt5-2023-11-26.py:734-741 | the pair code does not depend on which node is taken as its own |
| Codes.PairCodeBinary | simple-1D-CVM-w-turtle-1pt5pt5-2023-11-26.py:734-741 | on 0/1 activations the code is 1 for both on, 2 for different activations, 3 for both off, in both directions |
| Codes.TripletCode | simple-1D-CVM-w-turtle-1pt5pt5-2023-11-26.py:917-938 | the zLeft table gives a code in {1..6}; an on node never gets 4 or 6; an off node never gets 1 or 3 |
| Codes.TripletCodeIsChainTriplet | simple-1D-CVM-w-turtle-1pt5pt5-2023-11-26.py:917-938 | on 0/1 activations, the table applied to the node's yLeft and wLeft codes is the chain classification of (left, diagonal-left, node), AAA=1 … BBB=6, and that classification is mirror-symmetric |
| Codes.ChainTriplet | simple-1D-CVM-w-turtle-1pt5pt5-2023-11-26.py:917-938 | the six triplet classes of a chain of three 0/1 nodes lie in {1..6} |
| Codes.RawCode | simple-1D-CVM-w-turtle-1pt3pt6-2023-07-27.py:472-480 | the raw value is 0 or 1, and equals the neighbour's activation when that is 0/1 |
| Codes.LeftSameRow | simple-1D-CVM-w-turtle-1pt5pt5-2023-11-26.py:720-726 | the left neighbour of (i, j) lies in row i, at column (j+M-1) % M |
| Codes.RightSameRow | simple-1D-CVM-w-turtle-1pt5pt5-2023-11-26.py:752-762 | the right neighbour of (i, j) lies in row i, at column (j+1) % M |
| Codes.SameRowInverse | simple-1D-CVM-w-turtle-1pt5pt5-2023-11-26.py:720-762 | the right neighbour of the left neighbour, and the left neighbour of the right neighbour, is the node itself |
| Codes.LeftOf | simple-1D-CVM-w-turtle-1pt5pt5-2023-11-26.py:720-731 | the same-row left neighbour of every grid node is an index below M*N |
| Codes.RightOf | simple-1D-CVM-w-turtle-1pt5pt5-2023-11-26.py:752-772 | the same-row right neighbour of every grid node is an index below M*N |
| Codes.LeftAt | simple-1D-CVM-w-turtle-1pt5pt5-2023-11-26.py:720-726 | at x = i*M+j the index `LeftOf` reads is the source's `(i+1)*M-1` at column 0 and `x-1` elsewhere |
| Codes.RightAt | simple-1D-CVM-w-turtle-1pt5pt5-2023-11-26.py:752-762 | at x = i*M+j the index `RightOf` reads is the source's `i*M` at the last column and `x+1` elsewhere |
| Codes.LeftRightInverse | simple-1D-CVM-w-turtle-1pt5pt5-2023-11-26.py:720-762 | the left neighbour of x's right neighbour, and the right neighbour of its left neighbour, is x |
| Codes.Mark | simple-1D-CVM-w-turtle-1pt5pt5-2023-11-26.py:407-416 | a swapped node is painted 2 or 3, and 3 exactly when its first-list activation is 0 |
| Cvm136.RawLeftOf | simple-1D-CVM-w-turtle-1pt3pt6-2023-07-27.py:466-481 | the node the raw wLeft pass reads (index q-1 at column 0, x-1 elsewhere, with Python's negative index) is the previous node of the whole list taken as a ring, (x + len - 1) % len |
| Cvm136.RowZeroWrapReadsLast | simple-1D-CVM-w-turtle-1pt3pt6-2023-07-27.py:470-472 | on row 0 the column-0 read is Python index -1, the list's last node, which for a list of exactly M*N nodes is at row N-1, column M-1 |
| Cvm136.ColumnZeroReadsRowAbove | simple-1D-CVM-w-turtle-1pt3pt6-2023-07-27.py:468-472 | on row i > 0 the column-0 read is node i*M-1, in row i-1, where the newer snapshots' same-row neighbour is (i+1)*M-1, in row i |
| Cvm136.DemoGridColumnZeroReads | simple-1D-CVM-w-turtle-1pt3pt6-2023-07-27.py:468-472 | on the 12 by 2 grid, node 12 reads node 11 (not 23) and node 0 reads node 23 (not 11) |
| Cvm136.RawWLeftPass | simple-1D-CVM-w-turtle-1pt3pt6-2023-07-27.py:466-481 | the raw wLeft pass keeps the list's length |
| Cvm136.RawWRightPass | simple-1D-CVM-w-turtle-1pt3pt6-2023-07-27.py:486-504 | the raw wRight pass keeps the list's length |
| Cvm136.Filled | simple-1D-CVM-w-turtle-1pt3pt6-2023-07-27.py:432-506 | the reference result of fill_values_node_list keeps the list's length |
| Cvm136.PassesAreFilled | simple-1D-CVM-w-turtle-1pt3pt6-2023-07-27.py:432-506 | the pattern, then the raw wLeft pass, then the raw wRight pass, give `Filled`: the wRight pass sees the activations the pattern produced |
| Cvm136.FilledValues | simple-1D-CVM-w-turtle-1pt3pt6-2023-07-27.py:466-504 | filling changes no identity field and no activation beyond the pattern's; every grid node's wLeft and wRight are 0 or 1; nodes past M*N are untouched |
| Cvm136.FilledKeepsActivations | simple-1D-CVM-w-turtle-1pt3pt6-2023-07-27.py:466-504 | the two raw passes change no activation |
| Cvm136.FilledMeaning | simple-1D-CVM-w-turtle-1pt3pt6-2023-07-27.py:466-504 | on 0/1 activations, wLeft and wRight are exactly the activations of the nodes read, whatever the node's own activation |
| Cvm136.RawWLeftStep | simple-1D-CVM-w-turtle-1pt3pt6-2023-07-27.py:470-480 | setting node x's raw wLeft from the node it reads extends the finished prefix of the pass by one |
| Cvm136.RawWRightStep | simple-1D-CVM-w-turtle-1pt3pt6-2023-07-27.py:491-503 | setting node x's raw wRight from its right neighbour extends the finished prefix of the pass by one |
| Cvm136.RawWLeftNode | simple-1D-CVM-w-turtle-1pt3pt6-2023-07-27.py:468-480 | the loop body's nested tests set node x's wLeft to the raw value of the node `RawLeftOf` names and change nothing else |
| Cvm136.RawWRightNode | simple-1D-CVM-w-turtle-1pt3pt6-2023-07-27.py:489-503 | the loop body's nested tests set node x's wRight to the raw value of its same-row right neighbour; the repeated inner test is proved never to succeed |
| Cvm136.RawWLeftRow | simple-1D-CVM-w-turtle-1pt3pt6-2023-07-27.py:467-481 | the column loop over row i finishes the raw wLeft pass up to (i+1)*M |
| Cvm136.RawWRightRow | simple-1D-CVM-w-turtle-1pt3pt6-2023-07-27.py:487-504 | the column loop over row i finishes the raw wRight pass up to (i+1)*M |
| Cvm136.FillValues | simple-1D-CVM-w-turtle-1pt3pt6-2023-07-27.py:432-506 | the in-place procedure turns the list into `Filled` of the old list |
| Cvm136.ObtainTurtleGridList | simple-1D-CVM-w-turtle-1pt3pt6-2023-07-27.py:239-257 | the display list keeps its incoming prefix, grows by M*N, and entry k of the new part is node k's activation |
| Cvm151.Classify | simple-1D-CVM-w-turtle-1pt5pt1-2023-11-24.py:623-698 | the reference classification keeps the list's length |
| Cvm151.WLeftPass | simple-1D-CVM-w-turtle-1pt5pt1-2023-11-24.py:626-656 | the wLeft pass keeps the list's length |
| Cvm151.WRightPass | simple-1D-CVM-w-turtle-1pt5pt1-2023-11-24.py:658-696 | the wRight pass keeps the list's length |
| Cvm151.PassesAreClassify | simple-1D-CVM-w-turtle-1pt5pt1-2023-11-24.py:623-698 | the wLeft pass followed by the wRight pass is `Classify` |
| Cvm151.ClassifyCodes | simple-1D-CVM-w-turtle-1pt5pt1-2023-11-24.py:623-698 | classification changes no activation and no identity field; grid nodes get both codes in {1,2,3}; nodes past M*N are untouched |
| Cvm151.ClassifyIdempotent | simple-1D-CVM-w-turtle-1pt5pt1-2023-11-24.py:623-698 | classifying a classified list changes nothing, which is why reclassifying the swapped list is a fresh classification |
| Cvm151.ClassifyMeaning | simple-1D-CVM-w-turtle-1pt5pt1-2023-11-24.py:641-655 | on 0/1 activations each code is 1, 2 or 3 exactly when the pair is both on, different or both off; node x's wRight equals its right neighbour's wLeft |
| Cvm151.WLeftStep | simple-1D-CVM-w-turtle-1pt5pt1-2023-11-24.py:632-656 | coding node x from its left neighbour extends the finished prefix of the wLeft pass by one |
| Cvm151.WRightStep | simple-1D-CVM-w-turtle-1pt5pt1-2023-11-24.py:664-696 | coding node x from its right neighbour extends the finished prefix of the wRight pass by one |
| Cvm151.AssignWLeftRow | simple-1D-CVM-w-turtle-1pt5pt1-2023-11-24.py:629-656 | the column loop over row i finishes the wLeft pass up to (i+1)*M |
| Cvm151.AssignWLeft | simple-1D-CVM-w-turtle-1pt5pt1-2023-11-24.py:626-656 | the in-place wLeft loops turn the list into `WLeftPass` of the old list |
| Cvm151.AssignWRightRow | simple-1D-CVM-w-turtle-1pt5pt1-2023-11-24.py:661-696 | the column loop over row i finishes the wRight pass up to (i+1)*M |
| Cvm151.AssignWRight | simple-1D-CVM-w-turtle-1pt5pt1-2023-11-24.py:658-696 | the in-place wRight loops turn the list into `WRightPass` of the old list |
| Cvm151.AssignLocalConfigVars | simple-1D-CVM-w-turtle-1pt5pt1-2023-11-24.py:623-698 | the procedure turns the list into `Classify` of the old list |
| Cvm151.NodeDifferenceTest | simple-1D-CVM-w-turtle-1pt5pt1-2023-11-24.py:786-796 | true when the two nodes' activations differ; otherwise the incoming flag |
| Cvm151.Interchanged | simple-1D-CVM-w-turtle-1pt5pt1-2023-11-24.py:853-863 | the swapped second list keeps its length |
| Cvm151.InterchangeActivations | simple-1D-CVM-w-turtle-1pt5pt1-2023-11-24.py:853-863 | reads both first-list activations, then writes node n1 := old activation of n2 and node n2 := old activation of n1 in the second list; correct even if the two lists are one object |
| Cvm151.InterchangedAt | simple-1D-CVM-w-turtle-1pt5pt1-2023-11-24.py:853-863 | only the activations of n1 and n2 change; n2 gets a1, n1 gets a2 unless it is n2 |
| Cvm151.InterchangeIsSwap | simple-1D-CVM-w-turtle-1pt5pt1-2023-11-24.py:853-863 | swapping within one list exchanges the two activations, keeps the multiset of activations, and with n1 == n2 leaves the list unchanged |
| Cvm151.InterchangeChangesIffDifferent | simple-1D-CVM-w-turtle-1pt5pt1-2023-11-24.py:786-863 | the swap changes the list exactly when the difference test, started from false, returns true |
| Cvm151.UpdateConfigValuesNodeList2 | simple-1D-CVM-w-turtle-1pt5pt1-2023-11-24.py:871-872 | the effective (second) definition hands back the same list object and, modifying nothing, leaves it unchanged |
| Cvm151.TurtleGrid | simple-1D-CVM-w-turtle-1pt5pt1-2023-11-24.py:321-358 | the display list grows by exactly 2*M*N entries |
| Cvm151.ObtainTurtleGridList | simple-1D-CVM-w-turtle-1pt5pt1-2023-11-24.py:321-358 | the two copying loops and the two marks turn the display list into `TurtleGrid` of the old one |
| Cvm151.TurtleGridContents | simple-1D-CVM-w-turtle-1pt5pt1-2023-11-24.py:334-356 | from an empty list: entries below M*N are the first list's activations; entries M*N+p are the second list's, except p = n1 or n2, which hold the marks of the first list's activations |
| Cvm155.GridAt | simple-1D-CVM-w-turtle-1pt5pt5-2023-11-26.py:611-629 | node x of a fresh grid is numbered x, at row x / M and column x % M, with activation and every code 0 |
| Cvm155.ObtainNodeList | simple-1D-CVM-w-turtle-1pt5pt5-2023-11-26.py:611-629 | appends exactly the M*N fresh grid nodes, in row-major order, to the incoming list |
| Cvm155.ObtainConfigVarsList | simple-1D-CVM-w-turtle-1pt5pt5-2023-11-26.py:641-656 | a new list of twelve zero configuration variables |
| Cvm155.Activated | simple-1D-CVM-w-turtle-1pt5pt5-2023-11-26.py:667-697 | the activation pattern keeps the list's length |
| Cvm155.ActivatedOnlyTurnsOn | simple-1D-CVM-w-turtle-1pt5pt5-2023-11-26.py:667-697 | the pattern only writes activation 1 and changes no other field; nodes past M*N are untouched |
| Cvm155.ActivatedFreshGrid | simple-1D-CVM-w-turtle-1pt5pt5-2023-11-26.py:675-695 | on a fresh grid, node (i, j) ends up on exactly when the pattern selects it; for M=12, N=2 that is row 0 at {0,1,2,4,5,6,8,9,10} and row 1 at {0,4,8} |
| Cvm155.ActivateStep | simple-1D-CVM-w-turtle-1pt5pt5-2023-11-26.py:675-695 | one step of the activation loop switches node i*M+j on exactly when the pattern selects (i, j) |
| Cvm155.AssignActivations | simple-1D-CVM-w-turtle-1pt5pt5-2023-11-26.py:667-697 | the in-place nested loops turn the list into `Activated` of the old list |
| Cvm155.DiagLeft | simple-1D-CVM-w-turtle-1pt5pt5-2023-11-26.py:797-834 | even row: the diagonal-left neighbour is in row i+1, at column (j+M-1) % M; odd row: in row i-1, at column j |
| Cvm155.DiagRight | simple-1D-CVM-w-turtle-1pt5pt5-2023-11-26.py:859-894 | even row: the diagonal-right neighbour is in row i+1, at column j; odd row: in row i-1, at column j+1, except at the last column, which yields i*M |
| Cvm155.OddRowDiagRightWrapStaysInRow | simple-1D-CVM-w-turtle-1pt5pt5-2023-11-26.py:885-890 | the odd-row last-column wrap i*M lies in the node's OWN row and coincides with its same-row right neighbour |
| Cvm155.DiagLeftOf | simple-1D-CVM-w-turtle-1pt5pt5-2023-11-26.py:797-839 | with N even, every grid node's diagonal-left neighbour is an index below M*N |
| Cvm155.DiagRightOf | simple-1D-CVM-w-turtle-1pt5pt5-2023-11-26.py:859-898 | with N even, every grid node's diagonal-right neighbour is an index below M*N |
| Cvm155.DiagLeftAt | simple-1D-CVM-w-turtle-1pt5pt5-2023-11-26.py:797-834 | at x = i*M+j the index `DiagLeftOf` reads is the source's per-parity formula |
| Cvm155.DiagRightAt | simple-1D-CVM-w-turtle-1pt5pt5-2023-11-26.py:859-894 | at x = i*M+j the index `DiagRightOf` reads is the source's per-parity formula |
| Cvm155.NeighboursInGrid | simple-1D-CVM-w-turtle-1pt5pt5-2023-11-26.py:714-898 | with N even, all four neighbour indices of every grid node are below M*N |
| Cvm155.Classify | simple-1D-CVM-w-turtle-1pt5pt5-2023-11-26.py:711-944 | the reference classification keeps the list's length |
| Cvm155.WLeftPass | simple-1D-CVM-w-turtle-1pt5pt5-2023-11-26.py:714-742 | the wLeft pass keeps the list's length |
| Cvm155.WRightPass | simple-1D-CVM-w-turtle-1pt5pt5-2023-11-26.py:746-783 | the wRight pass keeps the list's length |
| Cvm155.YLeftPass | simple-1D-CVM-w-turtle-1pt5pt5-2023-11-26.py:787-851 | the yLeft pass keeps the list's length |
| Cvm155.YRightPass | simple-1D-CVM-w-turtle-1pt5pt5-2023-11-26.py:855-909 | the yRight pass keeps the list's length |
| Cvm155.ZLeftPass | simple-1D-CVM-w-turtle-1pt5pt5-2023-11-26.py:913-939 | the zLeft pass keeps the list's length |
| Cvm155.PassesAreClassify | simple-1D-CVM-w-turtle-1pt5pt5-2023-11-26.py:711-944 | the five passes in the source's order equal `Classify`: no pass changes an activation, and zLeft reads the yLeft and wLeft just written |
| Cvm155.ClassifyCodes | simple-1D-CVM-w-turtle-1pt5pt5-2023-11-26.py:711-944 | classification changes no activation, no identity field and never zRight; grid nodes get pair codes in {1,2,3} and zLeft in {1..6}; nodes past M*N are untouched |
| Cvm155.ClassifyDependsOnActivations | simple-1D-CVM-w-turtle-1pt5pt5-2023-11-26.py:711-944 | two lists with the same activations get the same five codes |
| Cvm155.ClassifyIdempotent | simple-1D-CVM-w-turtle-1pt5pt5-2023-11-26.py:711-944 | classifying a classified list changes nothing |
| Cvm155.ClassifyMeaning | simple-1D-CVM-w-turtle-1pt5pt5-2023-11-26.py:734-938 | on 0/1 activations each w and y code is 1, 2 or 3 exactly when the node and that neighbour are both on, differ, or are both off; zLeft is the chain class of (left, diagonal-left, node) |
| Cvm155.WLeftStep | simple-1D-CVM-w-turtle-1pt5pt5-2023-11-26.py:720-742 | coding node x from its left neighbour extends the finished prefix of the wLeft pass by one |
| Cvm155.WRightStep | simple-1D-CVM-w-turtle-1pt5pt5-2023-11-26.py:752-783 | coding node x from its right neighbour extends the finished prefix of the wRight pass by one |
| Cvm155.YLeftStep | simple-1D-CVM-w-turtle-1pt5pt5-2023-11-26.py:801-851 | coding node x from its diagonal-left neighbour extends the finished prefix of the yLeft pass by one |
| Cvm155.YRightStep | simple-1D-CVM-w-turtle-1pt5pt5-2023-11-26.py:864-909 | coding node x from its diagonal-right neighbour extends the finished prefix of the yRight pass by one |
| Cvm155.ZLeftStep | simple-1D-CVM-w-turtle-1pt5pt5-2023-11-26.py:917-939 | coding node x from its own activation, yLeft and wLeft extends the finished prefix of the zLeft pass by one |
| Cvm155.AssignWLeftRow | simple-1D-CVM-w-turtle-1pt5pt5-2023-11-26.py:717-742 | the column loop over row i finishes the wLeft pass up to (i+1)*M |
| Cvm155.AssignWLeft | simple-1D-CVM-w-turtle-1pt5pt5-2023-11-26.py:714-742 | the in-place wLeft loops turn the list into `WLeftPass` of the old list |
| Cvm155.AssignWRightRow | simple-1D-CVM-w-turtle-1pt5pt5-2023-11-26.py:749-783 | the column loop over row i finishes the wRight pass up to (i+1)*M |
| Cvm155.AssignWRight | simple-1D-CVM-w-turtle-1pt5pt5-2023-11-26.py:746-783 | the in-place wRight loops turn the list into `WRightPass` of the old list |
| Cvm155.AssignYLeftEvenRow | simple-1D-CVM-w-turtle-1pt5pt5-2023-11-26.py:797-827 | the even-row column loop finishes the yLeft pass up to (i+1)*M |
| Cvm155.AssignYLeftOddRow | simple-1D-CVM-w-turtle-1pt5pt5-2023-11-26.py:829-851 | the odd-row column loop finishes the yLeft pass up to (i+1)*M |
| Cvm155.AssignYLeft | simple-1D-CVM-w-turtle-1pt5pt5-2023-11-26.py:787-851 | the in-place yLeft loops turn the list into `YLeftPass` of the old list |
| Cvm155.AssignYRightEvenRow | simple-1D-CVM-w-turtle-1pt5pt5-2023-11-26.py:859-878 | the even-row column loop finishes the yRight pass up to (i+1)*M |
| Cvm155.AssignYRightOddRow | simple-1D-CVM-w-turtle-1pt5pt5-2023-11-26.py:880-909 | the odd-row column loop, with the i*M wrap at the last column, finishes the yRight pass up to (i+1)*M |
| Cvm155.AssignYRight | simple-1D-CVM-w-turtle-1pt5pt5-2023-11-26.py:855-909 | the in-place yRight loops turn the list into `YRightPass` of the old list |
| Cvm155.AssignZLeft | simple-1D-CVM-w-turtle-1pt5pt5-2023-11-26.py:913-939 | the in-place zLeft loops turn the list into `ZLeftPass` of the old list |
| Cvm155.AssignLocalConfigVars | simple-1D-CVM-w-turtle-1pt5pt5-2023-11-26.py:711-944 | the whole procedure turns the list into `Classify` of the old list |
| Cvm155.NodeDifferenceTest | simple-1D-CVM-w-turtle-1pt5pt5-2023-11-26.py:1032-1042 | true when the two nodes' activations differ; otherwise the incoming flag |
| Cvm155.Activations | simple-1D-CVM-w-turtle-1pt5pt5-2023-11-26.py:394-405 | the activation sequence has the list's length and holds node p's activation at p |
| Cvm155.Interchanged | simple-1D-CVM-w-turtle-1pt5pt5-2023-11-26.py:1050-1060 | the swapped second list keeps its length |
| Cvm155.InterchangeActivations | simple-1D-CVM-w-turtle-1pt5pt5-2023-11-26.py:1050-1060 | reads both first-list activations, then writes node n1 := old activation of n2 and node n2 := old activation of n1 in the second list; correct even if the two lists are one object |
| Cvm155.InterchangedAt | simple-1D-CVM-w-turtle-1pt5pt5-2023-11-26.py:1050-1060 | only the activations of n1 and n2 change; n2 gets a1, n1 gets a2 unless it is n2 |
| Cvm155.InterchangeIsSwap | simple-1D-CVM-w-turtle-1pt5pt5-2023-11-26.py:1050-1060 | swapping within one list exchanges the two activations |
| Cvm155.InterchangeKeepsActivations | simple-1D-CVM-w-turtle-1pt5pt5-2023-11-26.py:1050-1060 | the swap keeps the multiset of activations, and with n1 == n2 leaves the list unchanged |
| Cvm155.InterchangeChangesIffDifferent | simple-1D-CVM-w-turtle-1pt5pt5-2023-11-26.py:1032-1060 | the swap changes the list exactly when the difference test, started from false, returns true |
| Cvm155.InterchangeInvolution | simple-1D-CVM-w-turtle-1pt5pt5-2023-11-26.py:1050-1060 | swapping the same two nodes again restores the list |
| Cvm155.Tally | simple-1D-CVM-w-turtle-1pt5pt5-2023-11-26.py:1084-1097 | the number of the first x nodes counted in a slot is at most x |
| Cvm155.Fractions | simple-1D-CVM-w-turtle-1pt5pt5-2023-11-26.py:1068-1134 | the aggregated list keeps its length and every entry past the twelve slots |
| Cvm155.TalliesAreTally | simple-1D-CVM-w-turtle-1pt5pt5-2023-11-26.py:1084-1097 | the twelve running counters after x nodes are exactly the twelve slot tallies |
| Cvm155.CountCodes | simple-1D-CVM-w-turtle-1pt5pt5-2023-11-26.py:1086-1097 | the twelve tests of the loop body raise by one exactly the y, w and z counters matching the node's yLeft, wLeft and zLeft codes, and keep the rest |
| Cvm155.TallyCodes | simple-1D-CVM-w-turtle-1pt5pt5-2023-11-26.py:1083-1097 | the nested counting loops count the first M*N nodes |
| Cvm155.ObtainActualConfigVars | simple-1D-CVM-w-turtle-1pt5pt5-2023-11-26.py:1068-1134 | the procedure turns the twelve variables into `Fractions`: incoming value plus the slot's tally, divided by M*N |
| Cvm155.WriteBackIsFractions | simple-1D-CVM-w-turtle-1pt5pt5-2023-11-26.py:1105-1132 | the twelve slot-by-slot write-backs give `Fractions` |
| Cvm155.YTalliesSum | simple-1D-CVM-w-turtle-1pt5pt5-2023-11-26.py:1086-1088 | when every node has yLeft in {1,2,3}, the three y tallies add up to the node count |
| Cvm155.WTalliesSum | simple-1D-CVM-w-turtle-1pt5pt5-2023-11-26.py:1089-1091 | when every node has wLeft in {1,2,3}, the three w tallies add up to the node count |
| Cvm155.ZTalliesSum | simple-1D-CVM-w-turtle-1pt5pt5-2023-11-26.py:1092-1097 | when every node has zLeft in {1..6}, the six z tallies add up to the node count |
| Cvm155.FractionAdd | simple-1D-CVM-w-turtle-1pt5pt5-2023-11-26.py:1105-1116 | fractions of one total from zero add as their counts do |
| Cvm155.FractionUnit | simple-1D-CVM-w-turtle-1pt5pt5-2023-11-26.py:1105-1116 | a count of at most the total gives a fraction in [0, 1] |
| Cvm155.FractionWhole | simple-1D-CVM-w-turtle-1pt5pt5-2023-11-26.py:1105-1116 | the whole total gives the fraction 1 |
| Cvm155.ThreeFractionsSumToOne | simple-1D-CVM-w-turtle-1pt5pt5-2023-11-26.py:1105-1110 | three counts that make up the total give fractions summing to 1 |
| Cvm155.SixFractionsSumToOne | simple-1D-CVM-w-turtle-1pt5pt5-2023-11-26.py:1111-1116 | six counts that make up the total give fractions summing to 1 |
| Cvm155.ClassifiedCodesInRange | simple-1D-CVM-w-turtle-1pt5pt5-2023-11-26.py:711-944 | every grid node of a classified list has yLeft and wLeft in {1,2,3} and zLeft in {1..6} |
| Cvm155.FractionsOfClassifiedBounded | simple-1D-CVM-w-turtle-1pt5pt5-2023-11-26.py:1068-1134 | with zero incoming values, every fraction of a classified list lies in [0, 1] |
| Cvm155.FractionsOfClassifiedSumToOne | simple-1D-CVM-w-turtle-1pt5pt5-2023-11-26.py:1068-1134 | with zero incoming values, the y fractions, the w fractions and the z fractions of a classified list each sum to 1 |
| Cvm155.TurtleGrid | simple-1D-CVM-w-turtle-1pt5pt5-2023-11-26.py:380-417 | the display list grows by exactly 2*M*N entries |
| Cvm155.AppendActivations | simple-1D-CVM-w-turtle-1pt5pt5-2023-11-26.py:392-405 | one copying loop appends exactly the M*N grid activations, in order, to the display list |
| Cvm155.ObtainTurtleGridList | simple-1D-CVM-w-turtle-1pt5pt5-2023-11-26.py:380-417 | the two copying loops and the two marks turn the display list into `TurtleGrid` of the old one |
| Cvm155.TurtleGridContents | simple-1D-CVM-w-turtle-1pt5pt5-2023-11-26.py:392-416 | from an empty list: entries below M*N are the first list's activations; entries M*N+p are the second list's, except p = n1 or n2, which hold the marks of the first list's activations |

## Left out

- `compute_neg_entropy` and `compute_free_energy` are left out: they are floating-point formulas with logarithms.
- `obtain_new_node_list2` is left out: it reads the user's choice of node interactively, and refers to a name (`newTry`) that is never defined. The two node numbers are parameters of the model.
- `obtain_array_size_list` and `obtain_array_size_specs` are left out: they only supply fixed dimensions. M and N are parameters instead.
- `turtle_grid` is left out: it draws with the turtle graphics library.
- All printing procedures and `print` calls are left out: they are output only.
- `welcome` and the debug switches are left out for the same reason.
- In 1pt5pt1, the earlier of the two `update_config_values_node_list2` definitions is left out: the later definition replaces it at module load, so it is never called.
- `main` is left out as a procedure: it is I/O orchestration. Its call order is described above.
- Unused imports are left out.
- Cvm155.Fraction: real division, not IEEE floating point. Rounding of the program's `/` is not modelled.
- Cvm155.ObtainActualConfigVars: the program adds each count to its incoming value one at a time. The model sums the counts as integers and adds the incoming value once, which gives the same exact real value.
- Cvm155.ObtainActualConfigVars: requires M*N > 0. The program raises ZeroDivisionError otherwise.
- Cvm151.NodeDifferenceTest, Cvm155.NodeDifferenceTest, Cvm151.InterchangeActivations, Cvm155.InterchangeActivations, Cvm151.ObtainTurtleGridList, Cvm155.ObtainTurtleGridList: these require node numbers that are list indices, 0 <= n < length. The chooser `obtain_new_node_list2` can return others.
  - The row is always 0 or 1: any other first answer reaches the undefined `newTry` and stops the program.
  - The column can be M. The first column check accepts 0..M inclusive, so with 2 rows, row 1 and column M give node 2*M.
  - The column can be any integer. After three failed retries the chooser reports the failure but still returns the last answer, so row 0 and column -1 give node -1.
  - In the source, a negative node number indexes from the end of each list (node -1 is the last node). That holds in `node_difference_test`, `interchange_activations_node_list2` and the marks of `obtain_turtle_grid_list`, where M*N + n is then an entry of the first half.
  - A node number at or past the list's length makes `node_difference_test` raise IndexError.
  - The model covers neither case.
- Activations, NodeDifferenceTest, Interchanged, TurtleGrid and their methods are written twice, once in `NodeGrid`/`Cvm151` and once in `Cvm155`. They are not shared because the 1pt5pt5 Node has ten fields and the older one six, and each snapshot defines its own Node class. The two copies read only the activation field and have the same contracts.
- Node identity is not modelled: the program never shares a Node object between two lists, so nodes are values.
- Multiple `Assign…Row`, `CountCodes`, `TallyCodes`, `AppendActivations` and `Raw…Node` helpers split the source's nested loops and loop bodies at the loop boundaries, one helper per row loop or loop body; statements and their order are unchanged.
- Cvm136.RawWRightNode: the source's inner branch that writes 0 after a repeated, already-failed test is represented by a proof that it is unreachable, so no statement stands for it.

## Findings

| source | as written | input that shows it | evidently intended | confidence | as-written member | corrected member |
|---|---|---|---|---|---|---|
| simple-1D-CVM-w-turtle-1pt3pt6-2023-07-27.py:470-472 | at column 0 the wLeft pass reads `node_list[q-1]` with q = i*M: the last node of the row above, or Python index -1 (the list's last node) on row 0 | M=12, N=2: node 12 (row 1, column 0) reads node 11, at the end of row 0; node 0 reads node 23, at the end of row 1 | the last node of the node's own row, (i+1)*M-1. The comment on line 471 says "assign wRight from last element on row": it names the wrong field, since the pass writes wLeft, but it places the read on the node's own row. 1pt5pt1 and 1pt5pt5 compute (i+1)*M-1 | high; not executed | Cvm136.DemoGridColumnZeroReads | Codes.LeftAt |
