/**
 * Quartet support values of a neighbor-joining tree (`quartet_all`,
 * `support_full`, `support_sample`).
 *
 * Each branch of the tree splits the leaves into four classes A, B, C and D
 * (the two subtrees below the branch, the sibling subtree, and the rest). A
 * quartet `(a, b, c, d)` with one leaf from each class does not support the
 * branch when pairing `a` with `c` or with `d` gives a smaller sum of
 * distances than pairing `a` with `b`; the support is one minus the share of
 * such quartets.
 */
module Quartets {
  import opened Wrappers
  import opened Matrices
  import opened NeighborJoining

  /** `SET_D = 0, SET_A, SET_B, SET_C`. */
  datatype Colour = SetD | SetA | SetB | SetC

  /** A quartet: one leaf from each class. */
  datatype Quartet = Quartet(a: nat, b: nat, c: nat, d: nat)

  // ---------------------------------------------------------------------------
  // Colouring the leaves

  /** `colorize(h, buffer, colour)`: every leaf below `h` takes `colour`; a null handle changes nothing. */
  function Painted(nodes: seq<Node>, size: nat, h: Option<nat>, buffer: seq<Colour>, colour: Colour): (r: seq<Colour>)
    requires Arena(nodes, size) && (h.Some? ==> h.value < |nodes|) && |buffer| == size
    ensures |r| == size
    ensures h.None? ==> r == buffer
    ensures h.Some? ==> forall x :: 0 <= x < size ==> r[x] == if x in Leaves(nodes, size, h.value) then colour else buffer[x]
  {
    if h.None? then buffer
    else seq(size, x requires 0 <= x < size => if x in Leaves(nodes, size, h.value) then colour else buffer[x])
  }

  /** The buffer `quartet_left` and its siblings build: SET_D everywhere, then A, B and C painted in that order. */
  function Colours(nodes: seq<Node>, size: nat, a: Option<nat>, b: Option<nat>, c: Option<nat>): (r: seq<Colour>)
    requires Arena(nodes, size)
    requires (a.Some? ==> a.value < |nodes|) && (b.Some? ==> b.value < |nodes|) && (c.Some? ==> c.value < |nodes|)
    ensures |r| == size
  {
    var none := seq(size, _ => SetD);
    Painted(nodes, size, c, Painted(nodes, size, b, Painted(nodes, size, a, none, SetA), SetB), SetC)
  }

  /** The leaves below an optional handle. */
  function Below(nodes: seq<Node>, size: nat, h: Option<nat>): set<nat>
    requires Arena(nodes, size) && (h.Some? ==> h.value < |nodes|)
  {
    if h.None? then {} else Leaves(nodes, size, h.value)
  }

  /** When the three subtrees are disjoint, each leaf has the colour of its class and the rest are D. */
  lemma ColoursExact(nodes: seq<Node>, size: nat, a: Option<nat>, b: Option<nat>, c: Option<nat>, x: nat)
    requires Arena(nodes, size)
    requires (a.Some? ==> a.value < |nodes|) && (b.Some? ==> b.value < |nodes|) && (c.Some? ==> c.value < |nodes|)
    requires Below(nodes, size, a) !! Below(nodes, size, b) && Below(nodes, size, a) !! Below(nodes, size, c)
    requires Below(nodes, size, b) !! Below(nodes, size, c)
    requires x < size
    ensures var r := Colours(nodes, size, a, b, c);
      (r[x] == SetA <==> x in Below(nodes, size, a))
      && (r[x] == SetB <==> x in Below(nodes, size, b))
      && (r[x] == SetC <==> x in Below(nodes, size, c))
      && (r[x] == SetD <==> x !in Below(nodes, size, a) + Below(nodes, size, b) + Below(nodes, size, c))
  {
  }

  // ---------------------------------------------------------------------------
  // support_full

  /** The four-point test: `(a, b, c, d)` does not support the split AB|CD. */
  predicate Against(m: Matrix, q: Quartet)
    requires Valid(m) && q.a < |m.names| && q.b < |m.names| && q.c < |m.names| && q.d < |m.names|
  {
    var abcd := Entry(m, q.a, q.b) + Entry(m, q.c, q.d);
    Entry(m, q.a, q.c) + Entry(m, q.b, q.d) < abcd || Entry(m, q.a, q.d) + Entry(m, q.b, q.c) < abcd
  }

  /** `quartet_counter` and `non_supporting_counter`. */
  datatype Tally = Tally(quartets: nat, against: nat)

  function Add(s: Tally, t: Tally): Tally
  {
    Tally(s.quartets + t.quartets, s.against + t.against)
  }

  /** The innermost loop of `support_full`, over `d < e`. */
  function TallyD(m: Matrix, buffer: seq<Colour>, a: nat, b: nat, c: nat, e: nat): Tally
    requires Valid(m) && |buffer| == |m.names| && a < |buffer| && b < |buffer| && c < |buffer| && e <= |buffer|
  {
    if e == 0 then Tally(0, 0)
    else
      var q := Quartet(a, b, c, e - 1);
      Add(TallyD(m, buffer, a, b, c, e - 1),
          if buffer[e - 1] == SetD then Tally(1, if Against(m, q) then 1 else 0) else Tally(0, 0))
  }

  /** The loop over `c < e`. */
  function TallyC(m: Matrix, buffer: seq<Colour>, a: nat, b: nat, e: nat): Tally
    requires Valid(m) && |buffer| == |m.names| && a < |buffer| && b < |buffer| && e <= |buffer|
  {
    if e == 0 then Tally(0, 0)
    else Add(TallyC(m, buffer, a, b, e - 1),
             if buffer[e - 1] == SetC then TallyD(m, buffer, a, b, e - 1, |buffer|) else Tally(0, 0))
  }

  /** The loop over `b < e`. */
  function TallyB(m: Matrix, buffer: seq<Colour>, a: nat, e: nat): Tally
    requires Valid(m) && |buffer| == |m.names| && a < |buffer| && e <= |buffer|
  {
    if e == 0 then Tally(0, 0)
    else Add(TallyB(m, buffer, a, e - 1),
             if buffer[e - 1] == SetB then TallyC(m, buffer, a, e - 1, |buffer|) else Tally(0, 0))
  }

  /** The outer loop over `a < e`. */
  function TallyA(m: Matrix, buffer: seq<Colour>, e: nat): Tally
    requires Valid(m) && |buffer| == |m.names| && e <= |buffer|
  {
    if e == 0 then Tally(0, 0)
    else Add(TallyA(m, buffer, e - 1),
             if buffer[e - 1] == SetA then TallyB(m, buffer, e - 1, |buffer|) else Tally(0, 0))
  }

  /** How many of the first `e` leaves have colour `c` (`set_sizes[c]`). */
  function Occurrences(buffer: seq<Colour>, c: Colour, e: nat): nat
    requires e <= |buffer|
  {
    if e == 0 then 0 else Occurrences(buffer, c, e - 1) + (if buffer[e - 1] == c then 1 else 0)
  }

  /** `x * y`, by repeated addition. */
  function Product(x: nat, y: nat): nat
  {
    if x == 0 then 0 else Product(x - 1, y) + y
  }

  lemma {:induction false} ProductIsMul(x: nat, y: nat)
    ensures Product(x, y) == x * y
  {
    if x > 0 {
      ProductIsMul(x - 1, y);
    }
  }

  lemma ProductStep(x: nat, y: nat, b: bool)
    ensures Product(x + (if b then 1 else 0), y) == Product(x, y) + (if b then y else 0)
  {
  }

  lemma {:induction false} TallyDCount(m: Matrix, buffer: seq<Colour>, a: nat, b: nat, c: nat, e: nat)
    requires Valid(m) && |buffer| == |m.names| && a < |buffer| && b < |buffer| && c < |buffer| && e <= |buffer|
    ensures TallyD(m, buffer, a, b, c, e).quartets == Occurrences(buffer, SetD, e)
    ensures TallyD(m, buffer, a, b, c, e).against <= TallyD(m, buffer, a, b, c, e).quartets
  {
    if e > 0 {
      TallyDCount(m, buffer, a, b, c, e - 1);
    }
  }

  /** One step of an outer loop: adding the inner tally when the leaf has the loop's class. */
  lemma StepCount(prev: Tally, inner: Tally, hit: bool, x: nat, y: nat)
    requires prev.quartets == Product(x, y) && prev.against <= prev.quartets
    requires inner.quartets == y && inner.against <= inner.quartets
    ensures var t := Add(prev, if hit then inner else Tally(0, 0));
      t.quartets == Product(x + (if hit then 1 else 0), y) && t.against <= t.quartets
  {
    ProductStep(x, y, hit);
  }

  lemma {:induction false} TallyCCount(m: Matrix, buffer: seq<Colour>, a: nat, b: nat, e: nat)
    requires Valid(m) && |buffer| == |m.names| && a < |buffer| && b < |buffer| && e <= |buffer|
    ensures TallyC(m, buffer, a, b, e).quartets == Product(Occurrences(buffer, SetC, e), Occurrences(buffer, SetD, |buffer|))
    ensures TallyC(m, buffer, a, b, e).against <= TallyC(m, buffer, a, b, e).quartets
  {
    if e > 0 {
      TallyCCount(m, buffer, a, b, e - 1);
      TallyDCount(m, buffer, a, b, e - 1, |buffer|);
      StepCount(TallyC(m, buffer, a, b, e - 1), TallyD(m, buffer, a, b, e - 1, |buffer|), buffer[e - 1] == SetC,
                Occurrences(buffer, SetC, e - 1), Occurrences(buffer, SetD, |buffer|));
    }
  }

  lemma {:induction false} TallyBCount(m: Matrix, buffer: seq<Colour>, a: nat, e: nat)
    requires Valid(m) && |buffer| == |m.names| && a < |buffer| && e <= |buffer|
    ensures TallyB(m, buffer, a, e).quartets
      == Product(Occurrences(buffer, SetB, e), Product(Occurrences(buffer, SetC, |buffer|), Occurrences(buffer, SetD, |buffer|)))
    ensures TallyB(m, buffer, a, e).against <= TallyB(m, buffer, a, e).quartets
  {
    if e > 0 {
      TallyBCount(m, buffer, a, e - 1);
      TallyCCount(m, buffer, a, e - 1, |buffer|);
      StepCount(TallyB(m, buffer, a, e - 1), TallyC(m, buffer, a, e - 1, |buffer|), buffer[e - 1] == SetB,
                Occurrences(buffer, SetB, e - 1),
                Product(Occurrences(buffer, SetC, |buffer|), Occurrences(buffer, SetD, |buffer|)));
    }
  }

  /** `quartet_counter` is `|A| * |B| * |C| * |D|`, and it bounds `non_supporting_counter`. */
  lemma {:induction false} TallyACount(m: Matrix, buffer: seq<Colour>, e: nat)
    requires Valid(m) && |buffer| == |m.names| && e <= |buffer|
    ensures TallyA(m, buffer, e).quartets
      == Product(Occurrences(buffer, SetA, e), Product(Occurrences(buffer, SetB, |buffer|),
           Product(Occurrences(buffer, SetC, |buffer|), Occurrences(buffer, SetD, |buffer|))))
    ensures TallyA(m, buffer, e).against <= TallyA(m, buffer, e).quartets
  {
    if e > 0 {
      var bcd := Product(Occurrences(buffer, SetB, |buffer|), Product(Occurrences(buffer, SetC, |buffer|), Occurrences(buffer, SetD, |buffer|)));
      var hit := buffer[e - 1] == SetA;
      TallyACount(m, buffer, e - 1);
      TallyBCount(m, buffer, e - 1, |buffer|);
      StepCount(TallyA(m, buffer, e - 1), TallyB(m, buffer, e - 1, |buffer|), hit, Occurrences(buffer, SetA, e - 1), bcd);
      assert TallyA(m, buffer, e) == Add(TallyA(m, buffer, e - 1), if hit then TallyB(m, buffer, e - 1, |buffer|) else Tally(0, 0));
      assert Occurrences(buffer, SetA, e) == Occurrences(buffer, SetA, e - 1) + (if hit then 1 else 0);
    }
  }

  /** The number of quartets with one leaf of each class: `|A| * |B| * |C| * |D|`. */
  function QuartetCount(buffer: seq<Colour>): nat
  {
    Product(Occurrences(buffer, SetA, |buffer|), Product(Occurrences(buffer, SetB, |buffer|),
      Product(Occurrences(buffer, SetC, |buffer|), Occurrences(buffer, SetD, |buffer|))))
  }

  /** `1 - x` on doubles. */
  function Complement(x: Double): (r: Double)
    ensures r.NaN? <==> x.NaN?
    ensures r.Num? ==> r.v + x.v == 1.0
  {
    if x.NaN? then NaN else Num(1.0 - x.v)
  }

  /** `support_full`: one minus the share of quartets that do not support the split. */
  function FullSupport(m: Matrix, buffer: seq<Colour>): Double
    requires Valid(m) && |buffer| == |m.names|
  {
    var t := TallyA(m, buffer, |buffer|);
    TallyACount(m, buffer, |buffer|);
    Complement(Quotient(t.against as real, t.quartets))
  }

  /**
   * The support is NaN (`0.0 / 0`) exactly when a class is empty; otherwise it
   * lies in `[0, 1]`, and it is 1 when no quartet is against the split.
   */
  lemma FullSupportRange(m: Matrix, buffer: seq<Colour>)
    requires Valid(m) && |buffer| == |m.names|
    ensures var s := FullSupport(m, buffer);
      (s.NaN? <==> QuartetCount(buffer) == 0)
      && (s.Num? ==> 0.0 <= s.v <= 1.0)
      && (s.Num? && TallyA(m, buffer, |buffer|).against == 0 ==> s.v == 1.0)
  {
    var t := TallyA(m, buffer, |buffer|);
    TallyACount(m, buffer, |buffer|);
    QuotientIsShare(t.against as real, t.quartets);
  }

  /** The four nested loops of `support_full`. */
  /** The innermost loop of `support_full`: the quartets `(a, b, c, d)` over every `d` of class D. */
  method CountD(m: Matrix, buffer: seq<Colour>, a: nat, b: nat, c: nat) returns (quartets: nat, against: nat)
    requires Valid(m) && |buffer| == |m.names| && a < |buffer| && b < |buffer| && c < |buffer|
    ensures Tally(quartets, against) == TallyD(m, buffer, a, b, c, |buffer|)
  {
    quartets, against := 0, 0;
    for d := 0 to |buffer|
      invariant Tally(quartets, against) == TallyD(m, buffer, a, b, c, d)
    {
      if buffer[d] == SetD {
        quartets := quartets + 1;
        var abcd := Entry(m, a, b) + Entry(m, c, d);
        if Entry(m, a, c) + Entry(m, b, d) < abcd || Entry(m, a, d) + Entry(m, b, c) < abcd {
          against := against + 1;
        }
      }
    }
  }

  /** The loop over every `c` of class C. */
  method CountC(m: Matrix, buffer: seq<Colour>, a: nat, b: nat) returns (quartets: nat, against: nat)
    requires Valid(m) && |buffer| == |m.names| && a < |buffer| && b < |buffer|
    ensures Tally(quartets, against) == TallyC(m, buffer, a, b, |buffer|)
  {
    quartets, against := 0, 0;
    for c := 0 to |buffer|
      invariant Tally(quartets, against) == TallyC(m, buffer, a, b, c)
    {
      if buffer[c] == SetC {
        var q, n := CountD(m, buffer, a, b, c);
        quartets, against := quartets + q, against + n;
      }
    }
  }

  /** The loop over every `b` of class B. */
  method CountB(m: Matrix, buffer: seq<Colour>, a: nat) returns (quartets: nat, against: nat)
    requires Valid(m) && |buffer| == |m.names| && a < |buffer|
    ensures Tally(quartets, against) == TallyB(m, buffer, a, |buffer|)
  {
    quartets, against := 0, 0;
    for b := 0 to |buffer|
      invariant Tally(quartets, against) == TallyB(m, buffer, a, b)
    {
      if buffer[b] == SetB {
        var q, n := CountC(m, buffer, a, b);
        quartets, against := quartets + q, against + n;
      }
    }
  }

  method SupportFull(m: Matrix, buffer: seq<Colour>) returns (s: Double)
    requires Valid(m) && |buffer| == |m.names|
    ensures s == FullSupport(m, buffer)
  {
    var size := |m.names|;
    var nonSupporting, quartetCounter := 0, 0;
    for a := 0 to size
      invariant Tally(quartetCounter, nonSupporting) == TallyA(m, buffer, a)
    {
      if buffer[a] == SetA {
        var q, n := CountB(m, buffer, a);
        quartetCounter, nonSupporting := quartetCounter + q, nonSupporting + n;
      }
    }
    TallyACount(m, buffer, size);
    s := Complement(Quotient(nonSupporting as real, quartetCounter));
  }

  // ---------------------------------------------------------------------------
  // support_sample

  /** A quartet with one leaf of each class. */
  predicate Fits(buffer: seq<Colour>, q: Quartet)
  {
    q.a < |buffer| && q.b < |buffer| && q.c < |buffer| && q.d < |buffer|
    && buffer[q.a] == SetA && buffer[q.b] == SetB && buffer[q.c] == SetC && buffer[q.d] == SetD
  }

  /**
   * What the sampler draws: `sample` distinct quartets, each with one leaf of
   * each class. The random engine is not modelled; its draws are a parameter.
   */
  predicate Drawn(buffer: seq<Colour>, sample: nat, drawn: seq<Quartet>)
  {
    |drawn| == sample
    && (forall i :: 0 <= i < |drawn| ==> Fits(buffer, drawn[i]))
    && (forall i, j :: 0 <= i < j < |drawn| ==> drawn[i] != drawn[j])
  }

  /** How many of the drawn quartets are against the split. */
  function AgainstCount(m: Matrix, drawn: seq<Quartet>): (n: nat)
    requires Valid(m)
    requires forall i :: 0 <= i < |drawn| ==>
      drawn[i].a < |m.names| && drawn[i].b < |m.names| && drawn[i].c < |m.names| && drawn[i].d < |m.names|
    ensures n <= |drawn|
  {
    if |drawn| == 0 then 0
    else AgainstCount(m, drawn[..|drawn| - 1]) + (if Against(m, drawn[|drawn| - 1]) then 1 else 0)
  }

  /**
   * `support_sample`: when fewer quartets exist than `sample`, the full
   * support; otherwise one minus the share of drawn quartets against the split.
   */
  function SampledSupport(m: Matrix, buffer: seq<Colour>, sample: nat, drawn: seq<Quartet>): Double
    requires Valid(m) && |buffer| == |m.names|
    requires QuartetCount(buffer) >= sample ==> Drawn(buffer, sample, drawn)
  {
    if QuartetCount(buffer) < sample then FullSupport(m, buffer)
    else Complement(Quotient(AgainstCount(m, drawn) as real, sample))
  }

  /** A sampled support is NaN only for an empty sample, and lies in `[0, 1]` otherwise. */
  lemma SampledSupportRange(m: Matrix, buffer: seq<Colour>, sample: nat, drawn: seq<Quartet>)
    requires Valid(m) && |buffer| == |m.names|
    requires QuartetCount(buffer) >= sample ==> Drawn(buffer, sample, drawn)
    ensures var s := SampledSupport(m, buffer, sample, drawn);
      (QuartetCount(buffer) >= sample ==> (s.NaN? <==> sample == 0))
      && (s.Num? ==> 0.0 <= s.v <= 1.0)
  {
    if QuartetCount(buffer) < sample {
      FullSupportRange(m, buffer);
    } else {
      QuotientIsShare(AgainstCount(m, drawn) as real, sample);
    }
  }

  /** `set_sizes`: the loop counting the leaves of each class. */
  method ClassSizes(buffer: seq<Colour>) returns (na: nat, nb: nat, nc: nat, nd: nat)
    ensures na == Occurrences(buffer, SetA, |buffer|) && nb == Occurrences(buffer, SetB, |buffer|)
    ensures nc == Occurrences(buffer, SetC, |buffer|) && nd == Occurrences(buffer, SetD, |buffer|)
  {
    na, nb, nc, nd := 0, 0, 0, 0;
    for i := 0 to |buffer|
      invariant na == Occurrences(buffer, SetA, i) && nb == Occurrences(buffer, SetB, i)
      invariant nc == Occurrences(buffer, SetC, i) && nd == Occurrences(buffer, SetD, i)
    {
      match buffer[i]
      case SetA => na := na + 1;
      case SetB => nb := nb + 1;
      case SetC => nc := nc + 1;
      case SetD => nd := nd + 1;
    }
  }

  /** `support_sample`, given the quartets the random engine draws. */
  method SupportSample(m: Matrix, buffer: seq<Colour>, sample: nat, drawn: seq<Quartet>) returns (s: Double)
    requires Valid(m) && |buffer| == |m.names|
    requires QuartetCount(buffer) >= sample ==> Drawn(buffer, sample, drawn)
    ensures s == SampledSupport(m, buffer, sample, drawn)
  {
    var na, nb, nc, nd := ClassSizes(buffer);
    ProductIsMul(nc, nd);
    ProductIsMul(nb, nc * nd);
    ProductIsMul(na, nb * (nc * nd));
    var quartetNumber := na * (nb * (nc * nd));
    if quartetNumber < sample {
      s := SupportFull(m, buffer);
      return;
    }
    var nonSupporting := 0;
    for i := 0 to sample
      invariant nonSupporting == AgainstCount(m, drawn[..i])
    {
      var q := drawn[i];
      var abcd := Entry(m, q.a, q.b) + Entry(m, q.c, q.d);
      if Entry(m, q.a, q.c) + Entry(m, q.b, q.d) < abcd || Entry(m, q.a, q.d) + Entry(m, q.b, q.c) < abcd {
        nonSupporting := nonSupporting + 1;
      }
      assert drawn[..i + 1][..i] == drawn[..i];
    }
    assert drawn[..sample] == drawn;
    s := Complement(Quotient(nonSupporting as real, sample));
  }

  // ---------------------------------------------------------------------------
  // Support values of the branches

  /** A support function `support_fn(distance, buffer)`, defined on every buffer of `size` leaves. */
  ghost predicate SupportFor(support: seq<Colour> --> Double, size: nat)
  {
    forall b: seq<Colour> :: |b| == size ==> support.requires(b)
  }

  /** Two arenas with the same children and leaf indices: only branch lengths or supports differ. */
  ghost predicate SameShape(nodes: seq<Node>, nodes': seq<Node>)
  {
    |nodes| == |nodes'|
    && forall h :: 0 <= h < |nodes| ==>
      nodes[h].left == nodes'[h].left && nodes[h].right == nodes'[h].right && nodes[h].index == nodes'[h].index
  }

  lemma ArenaSameShape(nodes: seq<Node>, nodes': seq<Node>, size: nat)
    requires SameShape(nodes, nodes') && Arena(nodes, size) && Binary(nodes)
    ensures Arena(nodes', size) && Binary(nodes')
  {
  }

  lemma {:induction false} LeavesSameShape(nodes: seq<Node>, nodes': seq<Node>, size: nat, h: nat)
    requires SameShape(nodes, nodes') && Arena(nodes, size) && h < |nodes|
    ensures Arena(nodes', size) && Leaves(nodes', size, h) == Leaves(nodes, size, h)
    decreases h
  {
    assert forall g :: 0 <= g < |nodes| ==>
      (nodes'[g].left == nodes[g].left && nodes'[g].index == nodes[g].index && nodes'[g].right == nodes[g].right);
    var nd := nodes[h];
    if nd.left.Some? { LeavesSameShape(nodes, nodes', size, nd.left.value); }
    if nd.right.Some? { LeavesSameShape(nodes, nodes', size, nd.right.value); }
  }

  lemma ColoursSameShape(nodes: seq<Node>, nodes': seq<Node>, size: nat, a: Option<nat>, b: Option<nat>, c: Option<nat>)
    requires SameShape(nodes, nodes') && Arena(nodes, size)
    requires (a.Some? ==> a.value < |nodes|) && (b.Some? ==> b.value < |nodes|) && (c.Some? ==> c.value < |nodes|)
    ensures Arena(nodes', size) && Colours(nodes', size, a, b, c) == Colours(nodes, size, a, b, c)
  {
    if a.Some? { LeavesSameShape(nodes, nodes', size, a.value); }
    if b.Some? { LeavesSameShape(nodes, nodes', size, b.value); }
    if c.Some? { LeavesSameShape(nodes, nodes', size, c.value); }
    assert forall g :: 0 <= g < |nodes| ==>
      (nodes'[g].left == nodes[g].left && nodes'[g].index == nodes[g].index && nodes'[g].right == nodes[g].right);
  }

  /** Handles that are null or name a slot of the arena. */
  predicate InArena(nodes: seq<Node>, h: Option<nat>)
  {
    h.Some? ==> h.value < |nodes|
  }

  /**
   * `quartet_left` on a node with children `left` and `right`: nothing when
   * `left` is null or a leaf; otherwise the support of the split with A and B
   * below `left` and C below `right`.
   */
  function LeftSupport(nodes: seq<Node>, size: nat, left: Option<nat>, right: Option<nat>,
                       support: seq<Colour> --> Double): Option<Double>
    requires Arena(nodes, size) && InArena(nodes, left) && InArena(nodes, right) && SupportFor(support, size)
  {
    if left.None? || nodes[left.value].left.None? then None
    else Some(support(Colours(nodes, size, nodes[left.value].left, nodes[left.value].right, right)))
  }

  /**
   * `quartet_right`: nothing when `left` is null or `right` is a leaf;
   * otherwise A and B below `right` and C below `left`.
   */
  function RightSupport(nodes: seq<Node>, size: nat, left: Option<nat>, right: Option<nat>,
                        support: seq<Colour> --> Double): Option<Double>
    requires Arena(nodes, size) && InArena(nodes, left) && InArena(nodes, right) && SupportFor(support, size)
    requires left.Some? ==> right.Some?
  {
    if left.None? || nodes[right.value].left.None? then None
    else Some(support(Colours(nodes, size, nodes[right.value].left, nodes[right.value].right, left)))
  }

  /** A node after `quartet_left` and `quartet_right` have run on it. */
  function Supported(nodes: seq<Node>, size: nat, h: nat, support: seq<Colour> --> Double): (nd: Node)
    requires Arena(nodes, size) && Binary(nodes) && h < |nodes| && SupportFor(support, size)
    ensures nd.left == nodes[h].left && nd.right == nodes[h].right && nd.index == nodes[h].index
    ensures nodes[h].left.None? ==> nd == nodes[h]
  {
    var nd := nodes[h];
    var l := LeftSupport(nodes, size, nd.left, nd.right, support);
    var r := RightSupport(nodes, size, nd.left, nd.right, support);
    nd.(leftSupport := if l.Some? then l.value else nd.leftSupport,
        rightSupport := if r.Some? then r.value else nd.rightSupport)
  }

  /** The pool after `quartet_all`: the inner slots `size .. 2*size-3` carry their supports. */
  function AllSupported(nodes: seq<Node>, size: nat, support: seq<Colour> --> Double): (r: seq<Node>)
    requires Arena(nodes, size) && Binary(nodes) && SupportFor(support, size) && |nodes| == 2 * size
    ensures SameShape(nodes, r)
    ensures forall h :: 0 <= h < |nodes| && !(size <= h < 2 * size - 2) ==> r[h] == nodes[h]
  {
    seq(|nodes|, h requires 0 <= h < |nodes| => if size <= h < 2 * size - 2 then Supported(nodes, size, h, support) else nodes[h])
  }

  /** The root after `quartet_all`: left, right and, when the extra child is inner, extra support. */
  function RootSupported(nodes: seq<Node>, size: nat, root: Root, support: seq<Colour> --> Double): (r: Root)
    requires Arena(nodes, size) && Binary(nodes) && SupportFor(support, size)
    requires root.left < |nodes| && root.right < |nodes| && root.extra < |nodes|
    ensures r.(leftSupport := root.leftSupport, rightSupport := root.rightSupport, extraSupport := root.extraSupport) == root
  {
    var l := LeftSupport(nodes, size, Some(root.left), Some(root.right), support);
    var r := RightSupport(nodes, size, Some(root.left), Some(root.right), support);
    var e := nodes[root.extra];
    var x := if e.left.None? then None
             else Some(support(Colours(nodes, size, e.left, e.right, Some(root.left))));
    root.(leftSupport := if l.Some? then l.value else root.leftSupport,
          rightSupport := if r.Some? then r.value else root.rightSupport,
          extraSupport := if x.Some? then x.value else root.extraSupport)
  }

  /** `traverse` with the painting visitor of `colorize`, from the node `h`. */
  method ColorizeNode(pool: array<Node>, size: nat, h: nat, buffer: array<Colour>, colour: Colour)
    requires Arena(pool[..], size) && buffer.Length == size && h < pool.Length
    modifies buffer
    ensures forall x :: 0 <= x < size ==> buffer[x] == if x in Leaves(pool[..], size, h) then colour else old(buffer[x])
    decreases h
  {
    var nd := pool[h];
    if nd.left.Some? {
      ColorizeNode(pool, size, nd.left.value, buffer, colour);
    } else {
      buffer[nd.index] := colour;
    }
    if nd.right.Some? {
      ColorizeNode(pool, size, nd.right.value, buffer, colour);
    }
  }

  /** `colorize`: a null handle leaves the buffer alone. */
  method Colorize(pool: array<Node>, size: nat, h: Option<nat>, buffer: array<Colour>, colour: Colour)
    requires Arena(pool[..], size) && buffer.Length == size && InArena(pool[..], h)
    modifies buffer
    ensures buffer[..] == Painted(pool[..], size, h, old(buffer[..]), colour)
  {
    if h.Some? {
      ColorizeNode(pool, size, h.value, buffer, colour);
    }
  }

  /** The buffer `quartet_left`, `quartet_right` and `quartet_all` fill before calling `support_fn`. */
  method QuartetBuffer(pool: array<Node>, size: nat, a: Option<nat>, b: Option<nat>, c: Option<nat>)
    returns (buffer: seq<Colour>)
    requires Arena(pool[..], size) && InArena(pool[..], a) && InArena(pool[..], b) && InArena(pool[..], c)
    ensures buffer == Colours(pool[..], size, a, b, c)
  {
    var buf := new Colour[size](_ => SetD);
    assert buf[..] == seq(size, _ => SetD);
    Colorize(pool, size, a, buf, SetA);
    Colorize(pool, size, b, buf, SetB);
    Colorize(pool, size, c, buf, SetC);
    buffer := buf[..];
  }

  /** `quartet_left`: the support to store in the node, or none when the function returns early. */
  method QuartetLeft(pool: array<Node>, size: nat, left: Option<nat>, right: Option<nat>, support: seq<Colour> --> Double)
    returns (s: Option<Double>)
    requires Arena(pool[..], size) && InArena(pool[..], left) && InArena(pool[..], right) && SupportFor(support, size)
    ensures s == LeftSupport(pool[..], size, left, right, support)
  {
    if left.None? || pool[left.value].left.None? {
      return None;
    }
    var l := pool[left.value];
    var buffer := QuartetBuffer(pool, size, l.left, l.right, right);
    s := Some(support(buffer));
  }

  /** `quartet_right`: the support to store in the node, or none when the function returns early. */
  method QuartetRight(pool: array<Node>, size: nat, left: Option<nat>, right: Option<nat>, support: seq<Colour> --> Double)
    returns (s: Option<Double>)
    requires Arena(pool[..], size) && InArena(pool[..], left) && InArena(pool[..], right) && SupportFor(support, size)
    requires left.Some? ==> right.Some?
    ensures s == RightSupport(pool[..], size, left, right, support)
  {
    if left.None? || pool[right.value].left.None? {
      return None;
    }
    var r := pool[right.value];
    var buffer := QuartetBuffer(pool, size, r.left, r.right, left);
    s := Some(support(buffer));
  }

  /** `quartet_left` and `quartet_right` on inner slot `h`, storing what they compute. */
  method SupportNode(pool: array<Node>, size: nat, h: nat, support: seq<Colour> --> Double, ghost orig: seq<Node>)
    requires Arena(orig, size) && Binary(orig) && SameShape(orig, pool[..]) && h < pool.Length && SupportFor(support, size)
    requires pool[h] == orig[h]
    modifies pool
    ensures pool[..] == old(pool[..])[h := Supported(orig, size, h, support)]
  {
    ArenaSameShape(orig, pool[..], size);
    var nd := pool[h];
    var l := QuartetLeft(pool, size, nd.left, nd.right, support);
    var r := QuartetRight(pool, size, nd.left, nd.right, support);
    if nd.left.Some? {
      ColoursSameShape(orig, pool[..], size, orig[nd.left.value].left, orig[nd.left.value].right, nd.right);
      ColoursSameShape(orig, pool[..], size, orig[nd.right.value].left, orig[nd.right.value].right, nd.left);
    }
    assert l == LeftSupport(orig, size, nd.left, nd.right, support);
    assert r == RightSupport(orig, size, nd.left, nd.right, support);
    if l.Some? {
      pool[h] := pool[h].(leftSupport := l.value);
    }
    if r.Some? {
      pool[h] := pool[h].(rightSupport := r.value);
    }
  }

  /** The loop of `quartet_all` over the inner slots `size .. 2 * size - 3`. */
  method SupportInner(pool: array<Node>, size: nat, support: seq<Colour> --> Double)
    requires size >= 2 && pool.Length == 2 * size && Arena(pool[..], size) && Binary(pool[..])
    requires SupportFor(support, size)
    modifies pool
    ensures pool[..] == AllSupported(old(pool[..]), size, support)
  {
    ghost var orig := pool[..];
    for i := 0 to size - 2
      invariant SameShape(orig, pool[..])
      invariant forall h :: 0 <= h < pool.Length ==>
        pool[h] == if size <= h < size + i then Supported(orig, size, h, support) else orig[h]
    {
      SupportNode(pool, size, size + i, support, orig);
    }
  }

  /** The tail of `quartet_all`: the root's three supports, read from a pool of the original shape. */
  method SupportRoot(pool: array<Node>, size: nat, root: Root, support: seq<Colour> --> Double, ghost orig: seq<Node>)
    returns (r: Root)
    requires Arena(orig, size) && Binary(orig) && SameShape(orig, pool[..]) && SupportFor(support, size)
    requires root.left < pool.Length && root.right < pool.Length && root.extra < pool.Length
    ensures r == RootSupported(orig, size, root, support)
  {
    ArenaSameShape(orig, pool[..], size);
    var l := QuartetLeft(pool, size, Some(root.left), Some(root.right), support);
    var rs := QuartetRight(pool, size, Some(root.left), Some(root.right), support);
    var e := pool[root.extra];
    var x: Option<Double> := None;
    if e.left.Some? {
      var buffer := QuartetBuffer(pool, size, e.left, e.right, Some(root.left));
      x := Some(support(buffer));
    }
    ColoursSameShape(orig, pool[..], size, orig[root.left].left, orig[root.left].right, Some(root.right));
    ColoursSameShape(orig, pool[..], size, orig[root.right].left, orig[root.right].right, Some(root.left));
    ColoursSameShape(orig, pool[..], size, e.left, e.right, Some(root.left));
    r := root.(leftSupport := if l.Some? then l.value else root.leftSupport,
               rightSupport := if rs.Some? then rs.value else root.rightSupport,
               extraSupport := if x.Some? then x.value else root.extraSupport);
  }

  /** `quartet_all`: the supports of every inner node, then of the root's branches. */
  method QuartetAll(t: Tree, support: seq<Colour> --> Double)
    requires t.size >= 2 && t.pool.Length == 2 * t.size && Arena(t.pool[..], t.size) && Binary(t.pool[..])
    requires t.root.left < t.pool.Length && t.root.right < t.pool.Length && t.root.extra < t.pool.Length
    requires SupportFor(support, t.size)
    modifies t, t.pool
    ensures t.pool[..] == AllSupported(old(t.pool[..]), t.size, support)
    ensures t.root == RootSupported(old(t.pool[..]), t.size, old(t.root), support)
  {
    var size, pool := t.size, t.pool;
    ghost var orig := pool[..];
    SupportInner(pool, size, support);
    var root := SupportRoot(pool, size, t.root, support, orig);
    t.root := root;
  }
}
