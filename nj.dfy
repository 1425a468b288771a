/**
 * Neighbor joining (`nj`): the tree arena, the functional description of one
 * agglomeration round and of the whole run, and the in-place procedure that
 * the program executes on a working copy of the matrix.
 *
 * The tree is an arena: `pool` holds `2 * size` nodes, the first `size` of
 * them leaves, and a node refers to its children by their handles (positions
 * in the pool). Every inner node refers only to nodes created before it.
 */
module NeighborJoining {
  import opened Wrappers
  import opened Matrices
  import opened Cursors

  /** `tree_node`: children, branch lengths, support values and the leaf index (-1 for inner nodes). */
  datatype Node = Node(left: Option<nat>, right: Option<nat>, leftDist: real, rightDist: real,
                       leftSupport: Double, rightSupport: Double, index: int)

  /** `tree_root`: a node with a third (extra) branch. */
  datatype Root = Root(left: nat, right: nat, extra: nat, leftDist: real, rightDist: real, extraDist: real,
                       leftSupport: Double, rightSupport: Double, extraSupport: Double)

  /** `tree_node{}`: the value every pool slot holds before it is used. */
  const Blank := Node(None, None, 0.0, 0.0, Num(0.0), Num(0.0), 0)

  /** `tree_node{i}`: the leaf for matrix row `i`. */
  function Leaf(i: nat): Node
  {
    Node(None, None, 0.0, 0.0, Num(0.0), Num(0.0), i)
  }

  /** The inner node `tree_node{lb, rb, ld, rd}`. */
  function Inner(l: nat, r: nat, ld: real, rd: real): Node
  {
    Node(Some(l), Some(r), ld, rd, Num(0.0), Num(0.0), -1)
  }

  // ---------------------------------------------------------------------------
  // The arena and the leaves below a node

  /**
   * Children come before their parent, and a node without a left child (whose
   * index `traverse` reports) names a leaf `0 <= index < size`.
   */
  ghost predicate Arena(nodes: seq<Node>, size: nat)
  {
    forall h :: 0 <= h < |nodes| ==>
      (nodes[h].left.Some? ==> nodes[h].left.value < h)
      && (nodes[h].right.Some? ==> nodes[h].right.value < h)
      && (nodes[h].left.None? ==> 0 <= nodes[h].index < size)
  }

  /**
   * The leaf indices `colorize` paints below handle `h`: `traverse` visits the
   * left subtree, the node itself (painted when it has no left child) and the
   * right subtree.
   */
  function Leaves(nodes: seq<Node>, size: nat, h: nat): set<nat>
    requires Arena(nodes, size) && h < |nodes|
    decreases h
  {
    var nd := nodes[h];
    (if nd.left.Some? then Leaves(nodes, size, nd.left.value) else {nd.index as nat})
    + (if nd.right.Some? then Leaves(nodes, size, nd.right.value) else {})
  }

  /** A node has either both children or none. */
  ghost predicate Binary(nodes: seq<Node>)
  {
    forall h :: 0 <= h < |nodes| ==> (nodes[h].left.Some? <==> nodes[h].right.Some?)
  }

  lemma {:induction false} LeavesInRange(nodes: seq<Node>, size: nat, h: nat)
    requires Arena(nodes, size) && h < |nodes|
    ensures forall x :: x in Leaves(nodes, size, h) ==> x < size
    decreases h
  {
    var nd := nodes[h];
    if nd.left.Some? { LeavesInRange(nodes, size, nd.left.value); }
    if nd.right.Some? { LeavesInRange(nodes, size, nd.right.value); }
  }

  /** Appending nodes to the arena does not change the leaves below an existing node. */
  lemma {:induction false} LeavesStable(nodes: seq<Node>, more: seq<Node>, size: nat, h: nat)
    requires Arena(nodes, size) && Arena(nodes + more, size) && h < |nodes|
    ensures Leaves(nodes + more, size, h) == Leaves(nodes, size, h)
    decreases h
  {
    var nd := nodes[h];
    assert (nodes + more)[h] == nd;
    if nd.left.Some? { LeavesStable(nodes, more, size, nd.left.value); }
    if nd.right.Some? { LeavesStable(nodes, more, size, nd.right.value); }
  }

  // ---------------------------------------------------------------------------
  // One round of agglomeration

  /** A `k x k` block of rows. */
  ghost predicate Block(d: seq<seq<real>>, k: nat)
  {
    |d| == k && forall i :: 0 <= i < k ==> |d[i]| == k
  }

  /** `std::accumulate(row, row + n, 0.0)`. */
  function Sum(s: seq<real>): real
  {
    if |s| == 0 then 0.0 else Sum(s[..|s| - 1]) + s[|s| - 1]
  }

  /** `r[i] = (sum of the first k entries of row i) / (k - 2)`. */
  function Divergences(d: seq<seq<real>>, k: nat): (r: seq<real>)
    requires Block(d, k) && k > 2
    ensures |r| == k
    ensures forall i :: 0 <= i < k ==> r[i] * (k - 2) as real == Sum(d[i])
  {
    seq(k, i requires 0 <= i < k => Sum(d[i]) / (k - 2) as real)
  }

  /** The value minimised when picking a pair: `M(i,j) - r[i] - r[j]`. */
  function Q(d: seq<seq<real>>, r: seq<real>, k: nat, i: nat, j: nat): real
    requires Block(d, k) && |r| == k && i < k && j < k
  {
    d[i][j] - r[i] - r[j]
  }

  /**
   * `p` is the pair the scan keeps: an off-diagonal pair with the least value,
   * and strictly below every off-diagonal pair that comes before it in
   * row-major order.
   */
  ghost predicate IsFirstMin(d: seq<seq<real>>, r: seq<real>, k: nat, p: Cell)
    requires Block(d, k) && |r| == k
  {
    p.row < k && p.col < k && p.row != p.col
    && (forall i, j :: 0 <= i < k && 0 <= j < k && i != j ==> Q(d, r, k, p.row, p.col) <= Q(d, r, k, i, j))
    && (forall i, j :: 0 <= i < k && 0 <= j < k && i != j && Before(Cell(i, j), p) ==>
          Q(d, r, k, p.row, p.col) < Q(d, r, k, i, j))
  }

  /** At most one pair is the first minimum. */
  lemma FirstMinUnique(d: seq<seq<real>>, r: seq<real>, k: nat, p: Cell, p': Cell)
    requires Block(d, k) && |r| == k && IsFirstMin(d, r, k, p) && IsFirstMin(d, r, k, p')
    ensures p == p'
  {
    BeforeTrichotomy(p, p');
  }

  /**
   * The scan over `(i, j)` from the current position to the end of the block,
   * with `best` the pair kept so far: a later pair replaces it only when its
   * value is strictly smaller.
   */
  function ScanMin(d: seq<seq<real>>, r: seq<real>, k: nat, i: nat, j: nat, best: Cell): Cell
    requires Block(d, k) && |r| == k && i <= k && j <= k && best.row < k && best.col < k
    decreases k - i, k - j
  {
    if i == k then best
    else if j == k then ScanMin(d, r, k, i + 1, 0, best)
    else if i != j && Q(d, r, k, i, j) < Q(d, r, k, best.row, best.col) then ScanMin(d, r, k, i, j + 1, Cell(i, j))
    else ScanMin(d, r, k, i, j + 1, best)
  }

  /** What holds of `best` while the scan stands at `(i, j)`. */
  ghost predicate ScanInvariant(d: seq<seq<real>>, r: seq<real>, k: nat, i: nat, j: nat, best: Cell)
    requires Block(d, k) && |r| == k
  {
    best.row < k && best.col < k && best.row != best.col
    && (Before(best, Cell(i, j)) || (best == Cell(0, 1) && !Before(Cell(0, 1), Cell(i, j))))
    && (forall x, y :: 0 <= x < k && 0 <= y < k && x != y && Before(Cell(x, y), Cell(i, j)) ==>
          Q(d, r, k, best.row, best.col) <= Q(d, r, k, x, y))
    && (forall x, y :: 0 <= x < k && 0 <= y < k && x != y && Before(Cell(x, y), Cell(i, j)) && Before(Cell(x, y), best) ==>
          Q(d, r, k, best.row, best.col) < Q(d, r, k, x, y))
  }

  lemma {:induction false} ScanMinKeepsInvariant(d: seq<seq<real>>, r: seq<real>, k: nat, i: nat, j: nat, best: Cell)
    requires Block(d, k) && |r| == k && i <= k && j <= k && (i == k ==> j == 0)
    requires ScanInvariant(d, r, k, i, j, best)
    ensures IsFirstMin(d, r, k, ScanMin(d, r, k, i, j, best))
    decreases k - i, k - j
  {
    if i == k {
      ScanDone(d, r, k, best);
    } else {
      var i', j', best' := ScanStep(d, r, k, i, j, best);
      ScanMinKeepsInvariant(d, r, k, i', j', best');
    }
  }

  /** One step of the scan keeps its invariant and its outcome. */
  lemma ScanStep(d: seq<seq<real>>, r: seq<real>, k: nat, i: nat, j: nat, best: Cell)
    returns (i': nat, j': nat, best': Cell)
    requires Block(d, k) && |r| == k && i < k && j <= k
    requires ScanInvariant(d, r, k, i, j, best)
    ensures i' <= k && j' <= k && (i' == k ==> j' == 0)
    ensures (i' == i + 1 && j' == 0) || (i' == i && j' == j + 1)
    ensures ScanInvariant(d, r, k, i', j', best')
    ensures ScanMin(d, r, k, i', j', best') == ScanMin(d, r, k, i, j, best)
  {
    if j == k {
      ScanNextRow(d, r, k, i, best);
      i', j', best' := i + 1, 0, best;
    } else if i != j && Q(d, r, k, i, j) < Q(d, r, k, best.row, best.col) {
      ScanTake(d, r, k, i, j, best);
      i', j', best' := i, j + 1, Cell(i, j);
    } else {
      ScanKeep(d, r, k, i, j, best);
      i', j', best' := i, j + 1, best;
    }
  }

  /** Past the last row, the kept pair is the first minimum. */
  lemma ScanDone(d: seq<seq<real>>, r: seq<real>, k: nat, best: Cell)
    requires Block(d, k) && |r| == k && ScanInvariant(d, r, k, k, 0, best)
    ensures IsFirstMin(d, r, k, best)
  {
    forall x, y | 0 <= x < k && 0 <= y < k && x != y ensures Before(Cell(x, y), Cell(k, 0)) {
    }
  }

  /** The end of a row is the start of the next one. */
  lemma ScanNextRow(d: seq<seq<real>>, r: seq<real>, k: nat, i: nat, best: Cell)
    requires Block(d, k) && |r| == k && i < k && ScanInvariant(d, r, k, i, k, best)
    ensures ScanInvariant(d, r, k, i + 1, 0, best)
    ensures ScanMin(d, r, k, i + 1, 0, best) == ScanMin(d, r, k, i, k, best)
  {
    forall x, y | 0 <= x < k && 0 <= y < k
      ensures Before(Cell(x, y), Cell(i, k)) <==> Before(Cell(x, y), Cell(i + 1, 0))
    {
    }
  }

  /** A strictly smaller off-diagonal value replaces the kept pair. */
  lemma ScanTake(d: seq<seq<real>>, r: seq<real>, k: nat, i: nat, j: nat, best: Cell)
    requires Block(d, k) && |r| == k && i < k && j < k && ScanInvariant(d, r, k, i, j, best)
    requires i != j && Q(d, r, k, i, j) < Q(d, r, k, best.row, best.col)
    ensures ScanInvariant(d, r, k, i, j + 1, Cell(i, j))
    ensures ScanMin(d, r, k, i, j + 1, Cell(i, j)) == ScanMin(d, r, k, i, j, best)
  {
  }

  /** Any other cell leaves the kept pair. */
  lemma ScanKeep(d: seq<seq<real>>, r: seq<real>, k: nat, i: nat, j: nat, best: Cell)
    requires Block(d, k) && |r| == k && i < k && j < k && ScanInvariant(d, r, k, i, j, best)
    requires !(i != j && Q(d, r, k, i, j) < Q(d, r, k, best.row, best.col))
    ensures ScanInvariant(d, r, k, i, j + 1, best)
    ensures ScanMin(d, r, k, i, j + 1, best) == ScanMin(d, r, k, i, j, best)
  {
  }

  /** The scan from `(0, 0)` with `(0, 1)` kept initially ends on the first minimum. */
  lemma ScanMinIsFirstMin(d: seq<seq<real>>, r: seq<real>, k: nat)
    requires Block(d, k) && |r| == k && k >= 2
    ensures IsFirstMin(d, r, k, ScanMin(d, r, k, 0, 0, Cell(0, 1)))
  {
    ScanMinKeepsInvariant(d, r, k, 0, 0, Cell(0, 1));
  }

  /** The pair joined in a round, ordered so that `min_i < min_j`. */
  function Pick(d: seq<seq<real>>, k: nat): (c: Cell)
    requires Block(d, k) && k > 2
    ensures c.row < c.col < k
    ensures IsFirstMin(d, Divergences(d, k), k, c) || IsFirstMin(d, Divergences(d, k), k, Cell(c.col, c.row))
  {
    var r := Divergences(d, k);
    ScanMinIsFirstMin(d, r, k);
    var s := ScanMin(d, r, k, 0, 0, Cell(0, 1));
    if s.col < s.row then Cell(s.col, s.row) else s
  }

  /** `row_k[x]`: the new node's distance to active node `x`. */
  function Dist(d: seq<seq<real>>, k: nat, mi: nat, mj: nat, x: nat): real
    requires Block(d, k) && mi < k && mj < k && x < k
  {
    (d[mi][x] + d[mj][x] - d[mi][mj]) / 2.0
  }

  /** Slot `x` of the shrunk block holds what slot `Src(x)` held: slot `min_j` takes row `k - 1`. */
  function Src(k: nat, mj: nat, x: nat): nat
    requires k > 0
  {
    if x == mj then k - 1 else x
  }

  /**
   * Cell `(i, j)` of the active block after a round: row and column `min_i`
   * hold the new node's distances, row `min_j` holds the former last row,
   * column `min_j` mirrors that row, and both diagonal cells are zero.
   */
  function JoinedCell(d: seq<seq<real>>, k: nat, mi: nat, mj: nat, i: nat, j: nat): real
    requires Block(d, k) && mi < mj < k && i < k - 1 && j < k - 1
  {
    if i == j then (if i == mi || i == mj then 0.0 else d[i][i])
    else if i == mi then Dist(d, k, mi, mj, Src(k, mj, j))
    else if j == mi then Dist(d, k, mi, mj, Src(k, mj, i))
    else if j == mj then d[k - 1][i]
    else d[Src(k, mj, i)][j]
  }

  function Joined(d: seq<seq<real>>, k: nat, mi: nat, mj: nat): (e: seq<seq<real>>)
    requires Block(d, k) && mi < mj < k
    ensures Block(e, k - 1)
    ensures forall i, j :: 0 <= i < k - 1 && 0 <= j < k - 1 ==> e[i][j] == JoinedCell(d, k, mi, mj, i, j)
  {
    seq(k - 1, i requires 0 <= i < k - 1 =>
      seq(k - 1, j requires 0 <= j < k - 1 => JoinedCell(d, k, mi, mj, i, j)))
  }

  /** The state of the agglomeration loop: `n`, the active block, `unjoined_nodes` and the used pool prefix. */
  datatype Stage = Stage(k: nat, d: seq<seq<real>>, active: seq<nat>, nodes: seq<Node>)

  ghost predicate Shaped(st: Stage)
  {
    Block(st.d, st.k) && |st.active| == st.k
  }

  /** One iteration of `while (n > 3)`. */
  function Join(st: Stage): (st': Stage)
    requires Shaped(st) && st.k > 3
    ensures Shaped(st') && st'.k == st.k - 1 && |st'.nodes| == |st.nodes| + 1
  {
    var k, d := st.k, st.d;
    var r := Divergences(d, k);
    var c := Pick(d, k);
    var mi, mj := c.row, c.col;
    var node := Inner(st.active[mi], st.active[mj], (d[mi][mj] + r[mi] - r[mj]) / 2.0, (d[mi][mj] - r[mi] + r[mj]) / 2.0);
    Stage(k - 1, Joined(d, k, mi, mj), st.active[mi := |st.nodes|][mj := st.active[k - 1]][..k - 1], st.nodes + [node])
  }

  /** The two branch lengths of a new node add up to the distance of the joined pair. */
  lemma JoinBranchLengths(st: Stage)
    requires Shaped(st) && st.k > 3
    ensures var c := Pick(st.d, st.k);
      var node := Join(st).nodes[|st.nodes|];
      node.left == Some(st.active[c.row]) && node.right == Some(st.active[c.col])
      && node.leftDist + node.rightDist == st.d[c.row][c.col]
  {
  }

  /** A symmetric active block with a zero diagonal stays so after a round. */
  lemma JoinKeepsSymmetry(st: Stage)
    requires Shaped(st) && st.k > 3
    requires forall i, j :: 0 <= i < st.k && 0 <= j < st.k ==> st.d[i][j] == st.d[j][i]
    requires forall i :: 0 <= i < st.k ==> st.d[i][i] == 0.0
    ensures var e := Join(st).d;
      (forall i, j :: 0 <= i < st.k - 1 && 0 <= j < st.k - 1 ==> e[i][j] == e[j][i])
      && (forall i :: 0 <= i < st.k - 1 ==> e[i][i] == 0.0)
  {
  }

  /** Row and column `min_i` of the shrunk block hold the new node's distances `(M(i,m)+M(j,m)-M(i,j))/2`. */
  lemma JoinNewRow(st: Stage, x: nat)
    requires Shaped(st) && st.k > 3 && x < st.k - 1
    ensures var c := Pick(st.d, st.k);
      var e := Join(st).d;
      x != c.row ==> (e[c.row][x] == e[x][c.row]
        == (st.d[c.row][Src(st.k, c.col, x)] + st.d[c.col][Src(st.k, c.col, x)] - st.d[c.row][c.col]) / 2.0)
  {
  }

  // ---------------------------------------------------------------------------
  // The whole run

  /** The leaf indices `0 .. size-1`. */
  ghost function Range(size: nat): (r: set<nat>)
    ensures forall x: int :: x in r <==> 0 <= x < size
  {
    if size == 0 then {} else Range(size - 1) + {size - 1}
  }

  /** The leaves below the nodes of `active`. */
  ghost function Covered(nodes: seq<Node>, size: nat, active: seq<nat>): set<nat>
    requires Arena(nodes, size) && forall t :: 0 <= t < |active| ==> active[t] < |nodes|
  {
    set t, x | 0 <= t < |active| && x in Leaves(nodes, size, active[t]) :: x
  }

  /** The subtrees of the active nodes partition the leaves `0 .. size-1`. */
  ghost predicate Partitioned(st: Stage, size: nat)
    requires Arena(st.nodes, size) && forall t :: 0 <= t < |st.active| ==> st.active[t] < |st.nodes|
  {
    (forall t, u :: 0 <= t < u < |st.active| ==> Leaves(st.nodes, size, st.active[t]) !! Leaves(st.nodes, size, st.active[u]))
    && Covered(st.nodes, size, st.active) == Range(size)
  }

  /** What the loop keeps: the shapes, a well-formed arena, and the leaf partition. */
  ghost predicate Good(st: Stage, size: nat)
  {
    Shaped(st) && Arena(st.nodes, size) && Binary(st.nodes)
    && (forall t :: 0 <= t < st.k ==> st.active[t] < |st.nodes|)
    && Partitioned(st, size)
  }

  lemma JoinKeepsArena(st: Stage, size: nat)
    requires Good(st, size) && st.k > 3
    ensures Arena(Join(st).nodes, size) && Binary(Join(st).nodes)
    ensures forall t :: 0 <= t < st.k - 1 ==> Join(st).active[t] < |Join(st).nodes|
  {
  }

  /** The leaf sets of the active nodes before a round. */
  ghost function LeafSets(st: Stage, size: nat): (L: seq<set<nat>>)
    requires Arena(st.nodes, size) && forall t :: 0 <= t < |st.active| ==> st.active[t] < |st.nodes|
    ensures |L| == |st.active|
    ensures forall t :: 0 <= t < |st.active| ==> L[t] == Leaves(st.nodes, size, st.active[t])
  {
    seq(|st.active|, t requires 0 <= t < |st.active| => Leaves(st.nodes, size, st.active[t]))
  }

  /**
   * After a round, slot `min_i` covers the two joined subtrees and every other
   * slot `t` covers what slot `Src(t)` covered before.
   */
  lemma JoinLeaves(st: Stage, size: nat)
    requires Good(st, size) && st.k > 3
    ensures Arena(Join(st).nodes, size)
    ensures forall t :: 0 <= t < st.k - 1 ==> Join(st).active[t] < |Join(st).nodes|
    ensures var c := Pick(st.d, st.k);
      var L, L' := LeafSets(st, size), LeafSets(Join(st), size);
      L'[c.row] == L[c.row] + L[c.col]
      && forall t :: 0 <= t < st.k - 1 && t != c.row ==> L'[t] == L[Src(st.k, c.col, t)]
  {
    JoinKeepsArena(st, size);
    var st' := Join(st);
    var c := Pick(st.d, st.k);
    var more := [st'.nodes[|st.nodes|]];
    assert st'.nodes == st.nodes + more;
    LeavesStable(st.nodes, more, size, st.active[c.row]);
    LeavesStable(st.nodes, more, size, st.active[c.col]);
    forall t | 0 <= t < st.k - 1 && t != c.row
      ensures Leaves(st'.nodes, size, st'.active[t]) == Leaves(st.nodes, size, st.active[Src(st.k, c.col, t)])
    {
      LeavesStable(st.nodes, more, size, st.active[Src(st.k, c.col, t)]);
    }
  }

  lemma JoinKeepsDisjoint(st: Stage, size: nat)
    requires Good(st, size) && st.k > 3
    ensures Arena(Join(st).nodes, size)
    ensures forall t :: 0 <= t < st.k - 1 ==> Join(st).active[t] < |Join(st).nodes|
    ensures var L' := LeafSets(Join(st), size);
      forall t, u :: 0 <= t < u < st.k - 1 ==> L'[t] !! L'[u]
  {
    JoinLeaves(st, size);
    var c := Pick(st.d, st.k);
    var k, mi, mj := st.k, c.row, c.col;
    var L, L' := LeafSets(st, size), LeafSets(Join(st), size);
    assert forall t, u :: 0 <= t < u < k ==> L[t] !! L[u];
    forall t, u | 0 <= t < u < k - 1 ensures L'[t] !! L'[u] {
      if t == mi {
        var s := Src(k, mj, u);
        assert s != mi && s != mj;
      } else if u == mi {
        var s := Src(k, mj, t);
        assert s != mi && s != mj;
      } else {
        assert Src(k, mj, t) != Src(k, mj, u);
      }
    }
  }

  lemma JoinKeepsCover(st: Stage, size: nat)
    requires Good(st, size) && st.k > 3
    ensures Arena(Join(st).nodes, size)
    ensures forall t :: 0 <= t < st.k - 1 ==> Join(st).active[t] < |Join(st).nodes|
    ensures Covered(Join(st).nodes, size, Join(st).active) == Range(size)
  {
    JoinLeaves(st, size);
    var st' := Join(st);
    var c := Pick(st.d, st.k);
    CoveredIsUnion(st, size);
    CoveredIsUnion(st', size);
    RegroupKeepsUnion(LeafSets(st, size), LeafSets(st', size), st.k, c.row, c.col);
  }

  /** The leaves a list of subtrees covers. */
  ghost function Union(L: seq<set<nat>>): set<nat>
  {
    set t, x | 0 <= t < |L| && x in L[t] :: x
  }

  lemma CoveredIsUnion(st: Stage, size: nat)
    requires Arena(st.nodes, size) && forall t :: 0 <= t < |st.active| ==> st.active[t] < |st.nodes|
    ensures Covered(st.nodes, size, st.active) == Union(LeafSets(st, size))
  {
    var L := LeafSets(st, size);
    forall x | x in Union(L) ensures x in Covered(st.nodes, size, st.active) {
      var t :| 0 <= t < |L| && x in L[t];
      assert x in Leaves(st.nodes, size, st.active[t]);
    }
  }

  /**
   * Merging slots `mi` and `mj` into `mi` and moving the last slot into `mj`
   * keeps the leaves covered.
   */
  lemma RegroupKeepsUnion(L: seq<set<nat>>, L': seq<set<nat>>, k: nat, mi: nat, mj: nat)
    requires |L| == k && |L'| == k - 1 && mi < mj < k
    requires L'[mi] == L[mi] + L[mj]
    requires forall t :: 0 <= t < k - 1 && t != mi ==> L'[t] == L[Src(k, mj, t)]
    ensures Union(L) == Union(L')
  {
    forall x | x in Union(L) ensures x in Union(L') {
      var s :| 0 <= s < k && x in L[s];
      var t := if s == mi || s == mj then mi else if s == k - 1 then mj else s;
      assert x in L'[t];
    }
    forall x | x in Union(L') ensures x in Union(L) {
      var t :| 0 <= t < k - 1 && x in L'[t];
      if t == mi {
        assert x in L[mi] || x in L[mj];
      } else {
        assert x in L[Src(k, mj, t)];
      }
    }
  }

  /** A round keeps the leaf partition: the new node covers exactly the two joined subtrees. */
  lemma JoinKeepsPartition(st: Stage, size: nat)
    requires Good(st, size) && st.k > 3
    ensures Good(Join(st), size)
  {
    JoinKeepsDisjoint(st, size);
    JoinKeepsCover(st, size);
    var st' := Join(st);
    var L' := LeafSets(st', size);
    assert forall t, u :: 0 <= t < u < |st'.active| ==> L'[t] !! L'[u];
  }

  /** The `while (n > 3)` loop as a whole. */
  function Run(st: Stage): (st': Stage)
    requires Shaped(st) && st.k >= 3
    ensures Shaped(st') && st'.k == 3 && |st'.nodes| == |st.nodes| + (st.k - 3)
    decreases st.k
  {
    if st.k == 3 then st else Run(Join(st))
  }

  lemma {:induction false} RunKeepsPartition(st: Stage, size: nat)
    requires Good(st, size) && st.k >= 3
    ensures Good(Run(st), size)
    decreases st.k
  {
    if st.k > 3 {
      JoinKeepsPartition(st, size);
      RunKeepsPartition(Join(st), size);
    }
  }

  /** The active block of the input matrix. */
  function Rows(m: Matrix): (d: seq<seq<real>>)
    requires Valid(m)
    ensures Block(d, |m.names|)
    ensures forall i, j :: 0 <= i < |m.names| && 0 <= j < |m.names| ==> d[i][j] == Entry(m, i, j)
  {
    seq(|m.names|, i requires 0 <= i < |m.names| => Row(m, i))
  }

  /** The loop's starting state: every row active, node `i` the leaf of row `i`. */
  function Start(m: Matrix): (st: Stage)
    requires Valid(m)
    ensures Shaped(st) && st.k == |m.names|
  {
    var n := |m.names|;
    Stage(n, Rows(m), seq(n, i requires 0 <= i < n => i), seq(n, i requires 0 <= i < n => Leaf(i)))
  }

  lemma StartGood(m: Matrix)
    requires Valid(m)
    ensures Good(Start(m), |m.names|)
  {
    var st, n := Start(m), |m.names|;
    forall t | 0 <= t < n ensures Leaves(st.nodes, n, st.active[t]) == {t} {
    }
    forall x | x in Range(n) ensures x in Covered(st.nodes, n, st.active) {
      assert x in Leaves(st.nodes, n, st.active[x]);
    }
  }

  /** The root joining the three remaining active nodes. */
  function RootOf(st: Stage): (root: Root)
    requires Shaped(st) && st.k == 3
  {
    var d := st.d;
    Root(st.active[0], st.active[1], st.active[2],
         (d[0][1] + d[0][2] - d[1][2]) / 2.0,
         (d[0][1] + d[1][2] - d[0][2]) / 2.0,
         (d[0][2] + d[1][2] - d[0][1]) / 2.0,
         Num(0.0), Num(0.0), Num(0.0))
  }

  /** The root's three branch lengths reproduce the three remaining pairwise distances. */
  lemma RootBranchLengths(st: Stage)
    requires Shaped(st) && st.k == 3
    ensures var root := RootOf(st);
      root.leftDist + root.rightDist == st.d[0][1]
      && root.leftDist + root.extraDist == st.d[0][2]
      && root.rightDist + root.extraDist == st.d[1][2]
  {
  }

  /** The pool `nj` returns: the used prefix, then blank slots up to `2 * size`. */
  function PoolOf(st: Stage, size: nat): (pool: seq<Node>)
    requires |st.nodes| <= 2 * size
    ensures |pool| == 2 * size
  {
    st.nodes + seq(2 * size - |st.nodes|, _ => Blank)
  }

  /** `nj(m)`: the pool and the root. */
  function NJ(m: Matrix): (t: (seq<Node>, Root))
    requires Valid(m) && |m.names| >= 3
    ensures |t.0| == 2 * |m.names|
  {
    var st := Run(Start(m));
    (PoolOf(st, |m.names|), RootOf(st))
  }

  /**
   * The loop runs `size - 3` times and fills pool slots `size .. 2*size-4`;
   * the three branches of the root hold every leaf exactly once.
   */
  lemma NJTreeShape(m: Matrix)
    requires Valid(m) && |m.names| >= 3
    ensures var n := |m.names|;
      var st := Run(Start(m));
      var root := NJ(m).1;
      |st.nodes| == 2 * n - 3
      && Arena(st.nodes, n)
      && root.left < |st.nodes| && root.right < |st.nodes| && root.extra < |st.nodes|
      && Leaves(st.nodes, n, root.left) !! Leaves(st.nodes, n, root.right)
      && Leaves(st.nodes, n, root.left) !! Leaves(st.nodes, n, root.extra)
      && Leaves(st.nodes, n, root.right) !! Leaves(st.nodes, n, root.extra)
      && Leaves(st.nodes, n, root.left) + Leaves(st.nodes, n, root.right) + Leaves(st.nodes, n, root.extra) == Range(n)
  {
    var n := |m.names|;
    StartGood(m);
    RunKeepsPartition(Start(m), n);
    var st := Run(Start(m));
    CoveredIsUnion(st, n);
    UnionOfThree(LeafSets(st, n));
  }

  lemma UnionOfThree(L: seq<set<nat>>)
    requires |L| == 3
    ensures Union(L) == L[0] + L[1] + L[2]
  {
    forall x | x in L[0] + L[1] + L[2] ensures x in Union(L) {
      if x in L[0] {
        assert 0 < 3 && x in L[0];
      } else if x in L[1] {
        assert 1 < 3 && x in L[1];
      } else {
        assert 2 < 3 && x in L[2];
      }
    }
  }

  // ---------------------------------------------------------------------------
  // The procedure `nj` runs, on a working copy of the matrix

  /** `tree`: the node pool and the root. */
  class Tree {
    const size: nat
    const pool: array<Node>
    var root: Root

    constructor (size: nat, pool: array<Node>, root: Root)
      ensures this.size == size && this.pool == pool && this.root == root
    {
      this.size := size;
      this.pool := pool;
      this.root := root;
    }
  }

  /** The loop of `nj` computes `r[i]` for every active row `i`. */
  method ComputeDivergences(a: array2<real>, k: nat, r: array<real>, ghost d: seq<seq<real>>)
    requires Block(d, k) && 2 < k <= a.Length0 && k <= a.Length1 && k <= r.Length
    requires forall i, j :: 0 <= i < k && 0 <= j < k ==> a[i, j] == d[i][j]
    modifies r
    ensures forall i :: 0 <= i < k ==> r[i] == Divergences(d, k)[i]
    ensures forall i :: k <= i < r.Length ==> r[i] == old(r[i])
  {
    for i := 0 to k
      invariant forall x :: 0 <= x < i ==> r[x] == Divergences(d, k)[x]
      invariant forall x :: k <= x < r.Length ==> r[x] == old(r[x])
    {
      var rr := 0.0;
      for j := 0 to k
        invariant rr == Sum(d[i][..j])
      {
        assert d[i][..j + 1][..j] == d[i][..j];
        rr := rr + a[i, j];
      }
      assert d[i][..k] == d[i];
      r[i] := rr / (k - 2) as real;
    }
  }

  /** The scan for the pair to join, with `min_i < min_j` forced at the end. */
  method SelectPair(a: array2<real>, r: array<real>, k: nat, ghost d: seq<seq<real>>) returns (mi: nat, mj: nat)
    requires Block(d, k) && 2 < k <= a.Length0 && k <= a.Length1 && k <= r.Length
    requires forall i, j :: 0 <= i < k && 0 <= j < k ==> a[i, j] == d[i][j]
    requires forall i :: 0 <= i < k ==> r[i] == Divergences(d, k)[i]
    ensures Cell(mi, mj) == Pick(d, k)
  {
    ghost var rs := Divergences(d, k);
    ghost var final := ScanMin(d, rs, k, 0, 0, Cell(0, 1));
    mi, mj := 0, 1;
    var minValue := a[0, 1] - r[0] - r[1];
    for i := 0 to k
      invariant mi < k && mj < k && minValue == Q(d, rs, k, mi, mj)
      invariant ScanMin(d, rs, k, i, 0, Cell(mi, mj)) == final
    {
      for j := 0 to k
        invariant mi < k && mj < k && minValue == Q(d, rs, k, mi, mj)
        invariant ScanMin(d, rs, k, i, j, Cell(mi, mj)) == final
      {
        if i != j {
          var value := a[i, j] - r[i] - r[j];
          if value < minValue {
            mi, mj, minValue := i, j, value;
          }
        }
      }
    }
    if mj < mi {
      mi, mj := mj, mi;
    }
  }

  /** `row_k`: the new node's distances to the other active nodes. */
  method NewRow(a: array2<real>, k: nat, mi: nat, mj: nat, ghost d: seq<seq<real>>) returns (rowK: array<real>)
    requires Block(d, k) && mi < mj < k && k <= a.Length0 && k <= a.Length1
    requires forall i, j :: 0 <= i < k && 0 <= j < k ==> a[i, j] == d[i][j]
    ensures fresh(rowK) && rowK.Length == k
    ensures forall x :: 0 <= x < k && x != mi && x != mj ==> rowK[x] == Dist(d, k, mi, mj, x)
    ensures rowK[mi] == 0.0
    ensures mj < k - 1 ==> rowK[mj] == Dist(d, k, mi, mj, k - 1)
  {
    rowK := new real[k];
    var mij := a[mi, mj];
    for x := 0 to k
      invariant forall y :: 0 <= y < x && y != mi && y != mj ==> rowK[y] == Dist(d, k, mi, mj, y)
    {
      if x != mi && x != mj {
        rowK[x] := (a[mi, x] + a[mj, x] - mij) / 2.0;
      }
    }
    rowK[mi] := 0.0;
    rowK[mj] := rowK[k - 1];
  }

  /** `memmove(&M(dst, 0), row, n * sizeof(double))`. */
  method CopyRow(a: array2<real>, dst: nat, row: array<real>, k: nat)
    requires dst < a.Length0 && k <= a.Length1 && k <= row.Length
    modifies a
    ensures forall p, q :: 0 <= p < a.Length0 && 0 <= q < a.Length1 ==>
      a[p, q] == if p == dst && q < k then row[q] else old(a[p, q])
  {
    for q := 0 to k
      invariant forall p, q' :: 0 <= p < a.Length0 && 0 <= q' < a.Length1 ==>
        a[p, q'] == if p == dst && q' < q then row[q'] else old(a[p, q'])
    {
      a[dst, q] := row[q];
    }
  }

  /** `memmove(&M(dst, 0), &M(src, 0), n * sizeof(double))`. */
  method MoveRow(a: array2<real>, dst: nat, src: nat, k: nat)
    requires dst < a.Length0 && src < a.Length0 && k <= a.Length1
    modifies a
    ensures forall p, q :: 0 <= p < a.Length0 && 0 <= q < a.Length1 ==>
      a[p, q] == if p == dst && q < k then old(a[src, q]) else old(a[p, q])
  {
    for q := 0 to k
      invariant forall p, q' :: 0 <= p < a.Length0 && 0 <= q' < a.Length1 ==>
        a[p, q'] == if p == dst && q' < q then old(a[src, q']) else old(a[p, q'])
    {
      a[dst, q] := a[src, q];
    }
  }

  /** `for i < n: M(i, c) = M(c, i)`: column `c` takes the values of row `c`. */
  method MirrorColumn(a: array2<real>, c: nat, k: nat)
    requires c < k <= a.Length0 && k <= a.Length1
    modifies a
    ensures forall p, q :: 0 <= p < a.Length0 && 0 <= q < a.Length1 ==>
      a[p, q] == if q == c && p < k then old(a[c, p]) else old(a[p, q])
  {
    for i := 0 to k
      invariant forall p, q :: 0 <= p < a.Length0 && 0 <= q < a.Length1 ==>
        a[p, q] == if q == c && p < i then old(a[c, p]) else old(a[p, q])
    {
      a[i, c] := a[c, i];
    }
  }

  /** The rewrite of the working copy after `min_i` and `min_j` are joined. */
  method Rewrite(a: array2<real>, k: nat, mi: nat, mj: nat, ghost d: seq<seq<real>>)
    requires Block(d, k) && mi < mj < k && k <= a.Length0 && k <= a.Length1
    requires forall i, j :: 0 <= i < k && 0 <= j < k ==> a[i, j] == d[i][j]
    modifies a
    ensures forall i, j :: 0 <= i < k - 1 && 0 <= j < k - 1 ==> a[i, j] == JoinedCell(d, k, mi, mj, i, j)
  {
    var rowK := NewRow(a, k, mi, mj, d);
    RewriteRows(a, k, mi, mj, d, rowK);
    RewriteColumns(a, k, mi, mj, d, rowK);
  }

  /** Row `min_i` becomes `row_k`, row `min_j` the former last row, and both diagonal cells zero. */
  method RewriteRows(a: array2<real>, k: nat, mi: nat, mj: nat, ghost d: seq<seq<real>>, rowK: array<real>)
    requires Block(d, k) && mi < mj < k && k <= a.Length0 && k <= a.Length1 && rowK.Length == k
    requires forall i, j :: 0 <= i < k && 0 <= j < k ==> a[i, j] == d[i][j]
    modifies a
    ensures forall i, j :: 0 <= i < k && 0 <= j < k ==>
      a[i, j] == if i == j && (i == mi || i == mj) then 0.0
                 else if i == mi then rowK[j] else if i == mj then d[k - 1][j] else d[i][j]
  {
    CopyRow(a, mi, rowK, k);
    MoveRow(a, mj, k - 1, k);
    a[mi, mi] := 0.0;
    a[mj, mj] := 0.0;
  }

  /** Columns `min_i` and `min_j` mirror the rewritten rows. */
  method RewriteColumns(a: array2<real>, k: nat, mi: nat, mj: nat, ghost d: seq<seq<real>>, rowK: array<real>)
    requires Block(d, k) && mi < mj < k && k <= a.Length0 && k <= a.Length1 && rowK.Length == k
    requires forall x :: 0 <= x < k && x != mi && x != mj ==> rowK[x] == Dist(d, k, mi, mj, x)
    requires mj < k - 1 ==> rowK[mj] == Dist(d, k, mi, mj, k - 1)
    requires forall i, j :: 0 <= i < k && 0 <= j < k ==>
      a[i, j] == if i == j && (i == mi || i == mj) then 0.0
                 else if i == mi then rowK[j] else if i == mj then d[k - 1][j] else d[i][j]
    modifies a
    ensures forall i, j :: 0 <= i < k - 1 && 0 <= j < k - 1 ==> a[i, j] == JoinedCell(d, k, mi, mj, i, j)
  {
    label Diagonal:
    MirrorColumn(a, mi, k);
    MirrorColumn(a, mj, k);
    forall i, j | 0 <= i < k - 1 && 0 <= j < k - 1 ensures a[i, j] == JoinedCell(d, k, mi, mj, i, j) {
      if j == mj {
        assert a[i, j] == old@Diagonal(if i == mi then a[mi, mj] else a[mj, i]);
      } else if j == mi {
        assert a[i, j] == old@Diagonal(a[mi, i]);
      } else {
        assert a[i, j] == old@Diagonal(a[i, j]);
      }
    }
  }

  /** The arrays of `nj` mirror the state of the agglomeration loop. */
  ghost predicate Mirrors(st: Stage, size: nat, a: array2<real>, active: array<nat>, pool: array<Node>, next: nat)
    reads a, active, pool
  {
    Shaped(st) && st.k <= size
    && a.Length0 == size && a.Length1 == size && active.Length == size && pool.Length == 2 * size
    && next == |st.nodes| && next == size + (size - st.k)
    && (forall i, j :: 0 <= i < st.k && 0 <= j < st.k ==> a[i, j] == st.d[i][j])
    && (forall t :: 0 <= t < st.k ==> active[t] == st.active[t])
    && pool[..] == st.nodes + seq(2 * size - next, _ => Blank)
  }

  /** One iteration of `while (n > 3)` on the arrays. */
  method Round(ghost st: Stage, k: nat, size: nat, a: array2<real>, r: array<real>, active: array<nat>, pool: array<Node>, next: nat)
    returns (next': nat)
    requires Mirrors(st, size, a, active, pool, next) && st.k == k > 3 && r.Length == size
    modifies a, r, active, pool
    ensures Mirrors(Join(st), size, a, active, pool, next')
  {
    ComputeDivergences(a, k, r, st.d);
    var mi, mj := SelectPair(a, r, k, st.d);
    var branch := Inner(active[mi], active[mj],
                        (a[mi, mj] + r[mi] - r[mj]) / 2.0,
                        (a[mi, mj] - r[mi] + r[mj]) / 2.0);
    label Before:
    pool[next] := branch;
    next' := next + 1;
    active[mi] := next' - 1;
    active[mj] := active[k - 1];
    Rewrite(a, k, mi, mj, st.d);
    assert pool[..] == old@Before(pool[..])[next := branch];
    PoolAppend(st.nodes, branch, 2 * size);
    RoundMirrors(st, size, a, active, pool, mi, mj, branch);
  }

  /** The arrays after one round on `st`, with the pair `(mi, mj)` joined into `branch`, mirror `Join(st)`. */
  lemma RoundMirrors(st: Stage, size: nat, a: array2<real>, active: array<nat>, pool: array<Node>,
                     mi: nat, mj: nat, branch: Node)
    requires Shaped(st) && 3 < st.k <= size && |st.nodes| == size + (size - st.k)
    requires a.Length0 == size && a.Length1 == size && active.Length == size && pool.Length == 2 * size
    requires Cell(mi, mj) == Pick(st.d, st.k)
    requires var rs := Divergences(st.d, st.k);
      branch == Inner(st.active[mi], st.active[mj],
                      (st.d[mi][mj] + rs[mi] - rs[mj]) / 2.0, (st.d[mi][mj] - rs[mi] + rs[mj]) / 2.0)
    requires forall i, j :: 0 <= i < st.k - 1 && 0 <= j < st.k - 1 ==> a[i, j] == JoinedCell(st.d, st.k, mi, mj, i, j)
    requires forall t :: 0 <= t < st.k - 1 ==> active[t] == st.active[mi := |st.nodes|][mj := st.active[st.k - 1]][t]
    requires pool[..] == (st.nodes + [branch]) + seq(2 * size - |st.nodes| - 1, _ => Blank)
    ensures Mirrors(Join(st), size, a, active, pool, |st.nodes| + 1)
  {
  }

  /** Writing a node into the first blank slot of the pool appends it to the nodes in use. */
  lemma PoolAppend(nodes: seq<Node>, node: Node, total: nat)
    requires |nodes| < total
    ensures (nodes + seq(total - |nodes|, _ => Blank))[|nodes| := node]
      == (nodes + [node]) + seq(total - |nodes| - 1, _ => Blank)
  {
  }

  /** The `while (n > 3)` loop on the arrays. */
  method Agglomerate(ghost st0: Stage, k0: nat, size: nat, a: array2<real>, r: array<real>, active: array<nat>,
                     pool: array<Node>, next0: nat) returns (next: nat)
    requires Mirrors(st0, size, a, active, pool, next0) && st0.k == k0 >= 3 && r.Length == size
    modifies a, r, active, pool
    ensures Mirrors(Run(st0), size, a, active, pool, next)
  {
    var k := k0;
    next := next0;
    ghost var st := st0;
    while k > 3
      invariant Mirrors(st, size, a, active, pool, next) && st.k == k && k >= 3
      invariant Run(st) == Run(st0)
      decreases k
    {
      next := Round(st, k, size, a, r, active, pool, next);
      st := Join(st);
      k := k - 1;
    }
  }

  /** The pool with a leaf in each of its first `size` slots, and every leaf unjoined. */
  method Leaves0(size: nat) returns (pool: array<Node>, active: array<nat>)
    ensures fresh(pool) && fresh(active) && pool.Length == 2 * size && active.Length == size
    ensures pool[..] == seq(size, x requires 0 <= x < size => Leaf(x)) + seq(2 * size - size, _ => Blank)
    ensures forall t :: 0 <= t < size ==> active[t] == t
  {
    pool := new Node[2 * size](_ => Blank);
    active := new nat[size];
    for i := 0 to size
      invariant pool[..] == seq(i, x requires 0 <= x < i => Leaf(x)) + seq(2 * size - i, _ => Blank)
      invariant forall t :: 0 <= t < i ==> active[t] == t
    {
      pool[i] := Leaf(i);
      active[i] := i;
    }
  }

  /** `nj(m)`: builds the pool and the root from a copy of the matrix. */
  method BuildTree(m: Matrix) returns (t: Tree)
    requires Valid(m) && |m.names| >= 3
    ensures fresh(t) && fresh(t.pool) && t.size == |m.names|
    ensures t.pool[..] == NJ(m).0 && t.root == NJ(m).1
  {
    var size := |m.names|;
    var pool, active := Leaves0(size);
    var r := new real[size];
    var a := ToCells(m);
    StartMirrored(m, a, active, pool);
    var next := Agglomerate(Start(m), size, size, a, r, active, pool, size);
    ghost var st := Run(Start(m));
    var d01, d02, d12 := a[0, 1], a[0, 2], a[1, 2];
    assert d01 == st.d[0][1] && d02 == st.d[0][2] && d12 == st.d[1][2];
    assert active[0] == st.active[0] && active[1] == st.active[1] && active[2] == st.active[2];
    var root := Root(active[0], active[1], active[2],
                     (d01 + d02 - d12) / 2.0, (d01 + d12 - d02) / 2.0, (d02 + d12 - d01) / 2.0,
                     Num(0.0), Num(0.0), Num(0.0));
    RootFrom(st, d01, d02, d12);
    assert NJ(m).1 == RootOf(st);
    assert pool[..] == PoolOf(st, size);
    t := new Tree(size, pool, root);
  }

  /** The root built from the three remaining distances. */
  lemma RootFrom(st: Stage, d01: real, d02: real, d12: real)
    requires Shaped(st) && st.k == 3 && d01 == st.d[0][1] && d02 == st.d[0][2] && d12 == st.d[1][2]
    ensures RootOf(st) == Root(st.active[0], st.active[1], st.active[2],
      (d01 + d02 - d12) / 2.0, (d01 + d12 - d02) / 2.0, (d02 + d12 - d01) / 2.0,
      Num(0.0), Num(0.0), Num(0.0))
  {
  }

  /** The freshly set up arrays mirror the loop's starting state. */
  lemma StartMirrored(m: Matrix, a: array2<real>, active: array<nat>, pool: array<Node>)
    requires Valid(m) && a.Length0 == |m.names| && a.Length1 == |m.names|
    requires forall i, j :: 0 <= i < |m.names| && 0 <= j < |m.names| ==> a[i, j] == Entry(m, i, j)
    requires active.Length == |m.names| && forall t :: 0 <= t < |m.names| ==> active[t] == t
    requires pool.Length == 2 * |m.names|
    requires pool[..] == seq(|m.names|, x requires 0 <= x < |m.names| => Leaf(x)) + seq(2 * |m.names| - |m.names|, _ => Blank)
    ensures Mirrors(Start(m), |m.names|, a, active, pool, |m.names|)
  {
    var st, size := Start(m), |m.names|;
    assert st.nodes == seq(size, x requires 0 <= x < size => Leaf(x));
    forall i, j | 0 <= i < size && 0 <= j < size ensures a[i, j] == st.d[i][j] {
    }
  }

  lemma SumOfFour(s: seq<real>)
    requires |s| == 4
    ensures Sum(s) == s[0] + s[1] + s[2] + s[3]
  {
    assert s[..3][..2] == s[..2] && s[..2][..1] == s[..1] && s[..1][..0] == [];
    calc {
      Sum(s);
      Sum(s[..3]) + s[3];
      Sum(s[..2]) + s[2] + s[3];
      Sum(s[..1]) + s[1] + s[2] + s[3];
      Sum(s[..0]) + s[0] + s[1] + s[2] + s[3];
    }
  }

  /** The distances of the four-species example. */
  const Four: seq<seq<real>> := [[0.0, 2.0, 4.0, 4.0], [2.0, 0.0, 4.0, 4.0], [4.0, 4.0, 0.0, 4.0], [4.0, 4.0, 4.0, 0.0]]

  lemma FourSpeciesPick()
    ensures Block(Four, 4) && Divergences(Four, 4) == [5.0, 5.0, 6.0, 6.0] && Pick(Four, 4) == Cell(0, 1)
  {
    var d := Four;
    assert Block(d, 4);
    var r := Divergences(d, 4);
    SumOfFour(d[0]);
    SumOfFour(d[1]);
    SumOfFour(d[2]);
    SumOfFour(d[3]);
    assert r == [5.0, 5.0, 6.0, 6.0];
    assert IsFirstMin(d, r, 4, Cell(0, 1));
    var c := Pick(d, 4);
    if IsFirstMin(d, r, 4, c) {
      FirstMinUnique(d, r, 4, c, Cell(0, 1));
    } else {
      FirstMinUnique(d, r, 4, Cell(c.col, c.row), Cell(0, 1));
    }
  }

  /**
   * Four species where A and B are at distance 2 and every other pair at 4:
   * A and B are joined first with branch lengths 1 and 1, D takes B's slot,
   * and the root has branches of length 1 (to AB), 2 (to D) and 2 (to C).
   */
  lemma FourSpecies()
    ensures var st := Stage(4, Four, [0, 1, 2, 3], [Leaf(0), Leaf(1), Leaf(2), Leaf(3)]);
      Shaped(st) && Run(st).nodes[4] == Inner(0, 1, 1.0, 1.0)
      && RootOf(Run(st)) == Root(4, 3, 2, 1.0, 2.0, 2.0, Num(0.0), Num(0.0), Num(0.0))
  {
    FourSpeciesPick();
    var st := Stage(4, Four, [0, 1, 2, 3], [Leaf(0), Leaf(1), Leaf(2), Leaf(3)]);
    var st' := Join(st);
    assert st'.nodes[4] == Inner(0, 1, 1.0, 1.0);
    assert st'.active == [4, 3, 2];
    assert st'.d[0][1] == 3.0 && st'.d[0][2] == 3.0 && st'.d[1][2] == 4.0;
    assert Run(st) == st';
  }

  /** The pool `nj` returns is a well-formed binary arena whose root refers to used slots. */
  lemma NJPoolShape(m: Matrix)
    requires Valid(m) && |m.names| >= 3
    ensures var n := |m.names|;
      Arena(NJ(m).0, n) && Binary(NJ(m).0)
      && NJ(m).1.left < 2 * n - 3 && NJ(m).1.right < 2 * n - 3 && NJ(m).1.extra < 2 * n - 3
  {
    var n := |m.names|;
    StartGood(m);
    RunKeepsPartition(Start(m), n);
    var st := Run(Start(m));
    var pool := NJ(m).0;
    assert pool == st.nodes + seq(2 * n - |st.nodes|, _ => Blank);
    forall h | 0 <= h < |pool| ensures pool[h] == if h < |st.nodes| then st.nodes[h] else Blank {
    }
  }
}
