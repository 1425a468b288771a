/**
 * Name lists of a distance matrix: the lexicographic order of `std::string`,
 * `std::sort`, `std::set_intersection`, the name -> index map built by
 * `make_index_map`, and the "names of self that other also has" filter used by
 * the older `mat-*` commands.
 */
module Names {

  /** `a <= b` in the lexicographic order of `std::string` (a proper prefix sorts first). */
  predicate Below(a: string, b: string)
    decreases |a|
  {
    |a| == 0 || (|b| > 0 && (a[0] < b[0] || (a[0] == b[0] && Below(a[1..], b[1..]))))
  }

  /** `a < b` for `std::string`. */
  predicate Less(a: string, b: string)
  {
    Below(a, b) && a != b
  }

  lemma {:induction false} BelowReflexive(a: string)
    ensures Below(a, a)
    decreases |a|
  {
    if |a| > 0 {
      BelowReflexive(a[1..]);
    }
  }

  lemma {:induction false} BelowAntisymmetric(a: string, b: string)
    requires Below(a, b) && Below(b, a)
    ensures a == b
    decreases |a|
  {
    if |a| > 0 {
      BelowAntisymmetric(a[1..], b[1..]);
      assert a == [a[0]] + a[1..] && b == [b[0]] + b[1..];
    }
  }

  lemma {:induction false} BelowTransitive(a: string, b: string, c: string)
    requires Below(a, b) && Below(b, c)
    ensures Below(a, c)
    decreases |a|
  {
    if |a| > 0 && a[0] == b[0] && b[0] == c[0] {
      BelowTransitive(a[1..], b[1..], c[1..]);
    }
  }

  lemma {:induction false} BelowTotal(a: string, b: string)
    ensures Below(a, b) || Below(b, a)
    decreases |a|
  {
    if |a| > 0 && |b| > 0 && a[0] == b[0] {
      BelowTotal(a[1..], b[1..]);
    }
  }

  /** Exactly one of `a < b`, `b < a`, `a == b` holds. */
  lemma LessTrichotomy(a: string, b: string)
    ensures Less(a, b) || Less(b, a) || a == b
    ensures !(Less(a, b) && Less(b, a))
  {
    BelowTotal(a, b);
    if Below(a, b) && Below(b, a) {
      BelowAntisymmetric(a, b);
    }
  }

  /** The range is in ascending order, as `std::sort` leaves it. */
  ghost predicate Sorted(s: seq<string>)
  {
    forall i, j :: 0 <= i < j < |s| ==> Below(s[i], s[j])
  }

  /** No name occurs twice. */
  ghost predicate Unique(s: seq<string>)
  {
    forall i, j :: 0 <= i < j < |s| ==> s[i] != s[j]
  }

  /** Insert `x` into the sorted list `s` before the first element not below it. */
  function Insert(x: string, s: seq<string>): (r: seq<string>)
    requires Sorted(s)
    ensures Sorted(r) && multiset(r) == multiset(s) + multiset{x}
  {
    if |s| == 0 then [x]
    else if Below(x, s[0]) then
      ConsSorted(x, s);
      [x] + s
    else
      var t := Insert(x, s[1..]);
      BelowTotal(x, s[0]);
      InsertBehindHead(x, s, t);
      [s[0]] + t
  }

  /** A name sorting before the head of a sorted list can go in front of it. */
  lemma ConsSorted(x: string, s: seq<string>)
    requires Sorted(s) && |s| > 0 && Below(x, s[0])
    ensures Sorted([x] + s)
  {
    var r := [x] + s;
    forall i, j | 0 <= i < j < |r| ensures Below(r[i], r[j]) {
      if i == 0 {
        assert r[j] == s[j - 1];
        if j > 1 {
          BelowTransitive(x, s[0], s[j - 1]);
        }
      } else {
        assert r[i] == s[i - 1] && r[j] == s[j - 1];
      }
    }
  }

  /** The head of a sorted list, in front of `x` inserted into its tail. */
  lemma InsertBehindHead(x: string, s: seq<string>, t: seq<string>)
    requires Sorted(s) && |s| > 0 && Below(s[0], x)
    requires Sorted(t) && multiset(t) == multiset(s[1..]) + multiset{x}
    ensures Sorted([s[0]] + t) && multiset([s[0]] + t) == multiset(s) + multiset{x}
  {
    assert s == [s[0]] + s[1..];
    HeadBelowInserted(x, s, t);
    ConsBelowAll(s[0], t);
  }

  /** The head of a sorted list sorts before every name of its tail with `x` added. */
  lemma HeadBelowInserted(x: string, s: seq<string>, t: seq<string>)
    requires Sorted(s) && |s| > 0 && Below(s[0], x)
    requires multiset(t) == multiset(s[1..]) + multiset{x}
    ensures forall j :: 0 <= j < |t| ==> Below(s[0], t[j])
  {
    forall j | 0 <= j < |t| ensures Below(s[0], t[j]) {
      assert t[j] in multiset(t);
      if t[j] in multiset(s[1..]) {
        var k :| 0 <= k < |s[1..]| && s[1..][k] == t[j];
        assert s[k + 1] == t[j];
      }
    }
  }

  /** A name sorting before every name of a sorted list can go in front of it. */
  lemma ConsBelowAll(h: string, t: seq<string>)
    requires Sorted(t) && forall j :: 0 <= j < |t| ==> Below(h, t[j])
    ensures Sorted([h] + t)
  {
    var r := [h] + t;
    forall i, j | 0 <= i < j < |r| ensures Below(r[i], r[j]) {
      if i == 0 {
        assert r[j] == t[j - 1];
      } else {
        assert r[i] == t[i - 1] && r[j] == t[j - 1];
      }
    }
  }

  /** `std::sort` on a vector of names: the sorted permutation of the input. */
  function Sort(s: seq<string>): (r: seq<string>)
    ensures Sorted(r) && multiset(r) == multiset(s) && |r| == |s|
  {
    if |s| == 0 then []
    else
      assert s == s[..|s| - 1] + [s[|s| - 1]];
      var r := Insert(s[|s| - 1], Sort(s[..|s| - 1]));
      assert |r| == |multiset(r)|;
      r
  }

  lemma SortMembers(s: seq<string>, x: string)
    ensures x in Sort(s) <==> x in s
  {
    assert x in Sort(s) <==> x in multiset(Sort(s));
    assert x in s <==> x in multiset(s);
  }

  /**
   * `std::set_intersection` of two ranges under `operator<`: step past the
   * smaller head, and emit the head of the first range when neither is smaller.
   */
  function Intersect(a: seq<string>, b: seq<string>): seq<string>
    decreases |a| + |b|
  {
    if |a| == 0 || |b| == 0 then []
    else if Less(a[0], b[0]) then Intersect(a[1..], b)
    else if Less(b[0], a[0]) then Intersect(a, b[1..])
    else [a[0]] + Intersect(a[1..], b[1..])
  }

  lemma {:induction false} IntersectSound(a: seq<string>, b: seq<string>)
    ensures forall x :: x in Intersect(a, b) ==> x in a && x in b
    ensures |Intersect(a, b)| <= |a| && |Intersect(a, b)| <= |b|
    decreases |a| + |b|
  {
    if |a| == 0 || |b| == 0 {
    } else if Less(a[0], b[0]) {
      IntersectSound(a[1..], b);
    } else if Less(b[0], a[0]) {
      IntersectSound(a, b[1..]);
    } else {
      IntersectSound(a[1..], b[1..]);
      LessTrichotomy(a[0], b[0]);
    }
  }

  lemma {:induction false} IntersectSorted(a: seq<string>, b: seq<string>)
    requires Sorted(a)
    ensures Sorted(Intersect(a, b))
    decreases |a| + |b|
  {
    if |a| == 0 || |b| == 0 {
    } else if Less(a[0], b[0]) {
      IntersectSorted(a[1..], b);
    } else if Less(b[0], a[0]) {
      IntersectSorted(a, b[1..]);
    } else {
      IntersectSorted(a[1..], b[1..]);
      IntersectSound(a[1..], b[1..]);
      var t := Intersect(a[1..], b[1..]);
      forall j | 0 <= j < |t| ensures Below(a[0], t[j]) {
        assert t[j] in t;
        var k :| 0 <= k < |a[1..]| && a[1..][k] == t[j];
        assert a[k + 1] == t[j];
      }
    }
  }

  /** A name present in both sorted ranges survives the intersection. */
  lemma {:induction false} IntersectComplete(a: seq<string>, b: seq<string>, x: string)
    requires Sorted(a) && Sorted(b) && x in a && x in b
    ensures x in Intersect(a, b)
    decreases |a| + |b|
  {
    assert a == [a[0]] + a[1..] && b == [b[0]] + b[1..];
    SortedHeadBelow(a, x);
    SortedHeadBelow(b, x);
    LessNotBelow(a[0], b[0]);
    LessNotBelow(b[0], a[0]);
    if Less(a[0], b[0]) {
      IntersectComplete(a[1..], b, x);
    } else if Less(b[0], a[0]) {
      IntersectComplete(a, b[1..], x);
    } else if x != a[0] {
      LessTrichotomy(a[0], b[0]);
      IntersectComplete(a[1..], b[1..], x);
    }
  }

  lemma LessNotBelow(u: string, v: string)
    ensures Less(u, v) ==> !Below(v, u)
  {
    if Less(u, v) && Below(v, u) {
      BelowAntisymmetric(u, v);
    }
  }

  lemma SortedHeadBelow(s: seq<string>, x: string)
    requires Sorted(s) && x in s
    ensures Below(s[0], x)
  {
    var k :| 0 <= k < |s| && s[k] == x;
    if k == 0 {
      BelowReflexive(x);
    }
  }

  /** The merge walk is symmetric: equal heads are equal strings. */
  lemma {:induction false} IntersectSymmetric(a: seq<string>, b: seq<string>)
    ensures Intersect(a, b) == Intersect(b, a)
    decreases |a| + |b|
  {
    if |a| == 0 || |b| == 0 {
    } else if Less(a[0], b[0]) {
      LessTrichotomy(a[0], b[0]);
      IntersectSymmetric(a[1..], b);
    } else if Less(b[0], a[0]) {
      IntersectSymmetric(a, b[1..]);
    } else {
      LessTrichotomy(a[0], b[0]);
      IntersectSymmetric(a[1..], b[1..]);
    }
  }

  /**
   * `common_names`: sort copies of both lists and intersect them. The result is
   * sorted, holds exactly the names the two lists share, and is no longer than
   * either list.
   */
  function CommonNames(selfNames: seq<string>, otherNames: seq<string>): (r: seq<string>)
    ensures Sorted(r)
    ensures forall x :: x in r <==> x in selfNames && x in otherNames
    ensures |r| <= |selfNames| && |r| <= |otherNames|
  {
    var a, b := Sort(selfNames), Sort(otherNames);
    IntersectSorted(a, b);
    IntersectSound(a, b);
    forall x | x in selfNames && x in otherNames ensures x in Intersect(a, b) {
      SortMembers(selfNames, x);
      SortMembers(otherNames, x);
      IntersectComplete(a, b, x);
    }
    forall x | x in Intersect(a, b) ensures x in selfNames && x in otherNames {
      SortMembers(selfNames, x);
      SortMembers(otherNames, x);
    }
    Intersect(a, b)
  }

  lemma CommonNamesSymmetric(a: seq<string>, b: seq<string>)
    ensures CommonNames(a, b) == CommonNames(b, a)
  {
    IntersectSymmetric(Sort(a), Sort(b));
  }

  /** Without repeated names in one input, the intersection repeats no name. */
  lemma {:induction false} IntersectUnique(a: seq<string>, b: seq<string>)
    requires Unique(a)
    ensures Unique(Intersect(a, b))
    decreases |a| + |b|
  {
    if |a| == 0 || |b| == 0 {
    } else if Less(a[0], b[0]) {
      IntersectUnique(a[1..], b);
    } else if Less(b[0], a[0]) {
      IntersectUnique(a, b[1..]);
    } else {
      IntersectUnique(a[1..], b[1..]);
      IntersectSound(a[1..], b[1..]);
      var t := Intersect(a[1..], b[1..]);
      forall j | 0 <= j < |t| ensures a[0] != t[j] {
        assert t[j] in t;
        var k :| 0 <= k < |a[1..]| && a[1..][k] == t[j];
        assert a[k + 1] == t[j];
      }
    }
  }

  lemma SortUnique(s: seq<string>)
    requires Unique(s)
    ensures Unique(Sort(s))
  {
    var r := Sort(s);
    forall i, j | 0 <= i < j < |r| ensures r[i] != r[j] {
      if r[i] == r[j] {
        TwoOccurrences(r, i, j);
        UniqueCount(s, r[i]);
      }
    }
  }

  lemma TwoOccurrences(s: seq<string>, i: nat, j: nat)
    requires i < j < |s| && s[i] == s[j]
    ensures multiset(s)[s[i]] >= 2
  {
    assert s == s[..j] + [s[j]] + s[j + 1..];
    assert s[..j][i] == s[i];
    assert s[i] in multiset(s[..j]);
  }

  lemma {:induction false} UniqueCount(s: seq<string>, x: string)
    requires Unique(s)
    ensures multiset(s)[x] <= 1
  {
    if |s| > 0 {
      assert s == [s[0]] + s[1..];
      UniqueCount(s[1..], x);
      if s[0] == x {
        assert x !in s[1..];
      }
    }
  }

  lemma CommonNamesUnique(a: seq<string>, b: seq<string>)
    requires Unique(a)
    ensures Unique(CommonNames(a, b))
  {
    SortUnique(a);
    IntersectUnique(Sort(a), Sort(b));
  }

  // ---------------------------------------------------------------------------
  // make_index_map

  /**
   * The map `make_index_map` returns: the loop assigns `ret[names[i]] = i` for
   * ascending `i`, so a name is mapped to the index of its last occurrence.
   */
  function IndexMap(names: seq<string>): map<string, nat>
  {
    if |names| == 0 then map[]
    else IndexMap(names[..|names| - 1])[names[|names| - 1] := |names| - 1]
  }

  /** Index of an occurrence of a present name: the last one, as `LastIndexIsLast` shows. */
  function LastIndex(names: seq<string>, x: string): (i: nat)
    requires x in names
    ensures i < |names| && names[i] == x
  {
    if names[|names| - 1] == x then |names| - 1
    else LastIndex(names[..|names| - 1], x)
  }

  /** No occurrence of the name follows the one `LastIndex` finds. */
  lemma {:induction false} LastIndexIsLast(names: seq<string>, x: string)
    requires x in names
    ensures forall j :: LastIndex(names, x) < j < |names| ==> names[j] != x
  {
    if names[|names| - 1] != x {
      var init := names[..|names| - 1];
      assert x in init by {
        var k :| 0 <= k < |names| && names[k] == x;
        assert init[k] == x;
      }
      LastIndexIsLast(init, x);
    }
  }

  /** Index of the first occurrence of a present name. */
  function FirstIndex(names: seq<string>, x: string): (i: nat)
    requires x in names
    ensures i < |names| && names[i] == x
    ensures forall j :: 0 <= j < i ==> names[j] != x
  {
    if names[0] == x then 0
    else FirstIndex(names[1..], x) + 1
  }

  /** The map's keys are exactly the names and each key maps to its last index. */
  lemma {:induction false} IndexMapLast(names: seq<string>)
    ensures IndexMap(names).Keys == set x | x in names
    ensures forall x :: x in names ==> IndexMap(names)[x] == LastIndex(names, x)
  {
    if |names| > 0 {
      var init := names[..|names| - 1];
      IndexMapLast(init);
      forall x | x in names ensures x in init || x == names[|names| - 1] {
        var k :| 0 <= k < |names| && names[k] == x;
        if k < |names| - 1 { assert init[k] == x; }
      }
    }
  }

  /** A present name is a key of the map, and its index is in range. */
  lemma IndexMapBounds(names: seq<string>, x: string)
    requires x in names
    ensures x in IndexMap(names) && IndexMap(names)[x] < |names|
  {
    IndexMapLast(names);
  }

  /** With unique names the index map inverts the list. */
  lemma IndexMapUnique(names: seq<string>, i: nat)
    requires Unique(names) && i < |names|
    ensures names[i] in IndexMap(names) && IndexMap(names)[names[i]] == i
  {
    IndexMapLast(names);
    var l := LastIndex(names, names[i]);
    assert !(l < i) && !(i < l);
  }

  /** `make_index_map` as the loop the program runs. */
  method MakeIndexMap(names: seq<string>) returns (m: map<string, nat>)
    ensures m == IndexMap(names)
  {
    m := map[];
    for i := 0 to |names|
      invariant m == IndexMap(names[..i])
    {
      assert names[..i + 1][..i] == names[..i];
      m := m[names[i] := i];
    }
    assert names[..|names|] == names;
  }

  // ---------------------------------------------------------------------------
  // self-ordered intersection of the older mat-* commands

  /** The names of `selfNames` that are keys of `otherMap`, in `selfNames` order (repeats kept). */
  function KeepPresent(selfNames: seq<string>, otherMap: map<string, nat>): seq<string>
  {
    if |selfNames| == 0 then []
    else
      var rest := KeepPresent(selfNames[..|selfNames| - 1], otherMap);
      if selfNames[|selfNames| - 1] in otherMap then rest + [selfNames[|selfNames| - 1]] else rest
  }

  /** The self-ordered common names: each lies in both lists, and every shared name appears. */
  lemma {:induction false} KeepPresentMembers(selfNames: seq<string>, otherNames: seq<string>)
    ensures var r := KeepPresent(selfNames, IndexMap(otherNames));
      && |r| <= |selfNames|
      && (forall x :: x in r <==> x in selfNames && x in otherNames)
  {
    IndexMapLast(otherNames);
    KeepPresentMembersMap(selfNames, IndexMap(otherNames));
  }

  lemma {:induction false} KeepPresentMembersMap(selfNames: seq<string>, m: map<string, nat>)
    ensures var r := KeepPresent(selfNames, m);
      && |r| <= |selfNames|
      && (forall x :: x in r <==> x in selfNames && x in m)
  {
    if |selfNames| > 0 {
      var init := selfNames[..|selfNames| - 1];
      KeepPresentMembersMap(init, m);
      assert selfNames == init + [selfNames[|selfNames| - 1]];
    }
  }

  /** Repeats in the result come only from repeats in `selfNames`. */
  lemma {:induction false} KeepPresentUnique(selfNames: seq<string>, m: map<string, nat>)
    requires Unique(selfNames)
    ensures Unique(KeepPresent(selfNames, m))
  {
    if |selfNames| > 0 {
      var init := selfNames[..|selfNames| - 1];
      KeepPresentUnique(init, m);
      KeepPresentMembersMap(init, m);
      assert selfNames[|selfNames| - 1] !in init;
    }
  }

  /** `self`'s names that occur in `other`, in `self` order, as the older commands compute them. */
  function SelfOrderCommon(selfNames: seq<string>, otherNames: seq<string>): (r: seq<string>)
    ensures |r| <= |selfNames| && forall x :: x in r <==> x in selfNames && x in otherNames
  {
    KeepPresentMembers(selfNames, otherNames);
    KeepPresent(selfNames, IndexMap(otherNames))
  }

  /** The filtering loop `for (name : self.names) if (other_map.find(name) != end) push_back(name)`. */
  method CommonInSelfOrder(selfNames: seq<string>, otherMap: map<string, nat>) returns (r: seq<string>)
    ensures r == KeepPresent(selfNames, otherMap)
  {
    r := [];
    for i := 0 to |selfNames|
      invariant r == KeepPresent(selfNames[..i], otherMap)
    {
      assert selfNames[..i + 1][..i] == selfNames[..i];
      if selfNames[i] in otherMap {
        r := r + [selfNames[i]];
      }
    }
    assert selfNames[..|selfNames|] == selfNames;
  }

  /** The first `n` bytes of `s` (at most `n`; all of `s` when it is shorter); a character of a name stands for one byte. */
  function Prefix(s: string, n: nat): (r: string)
    ensures |r| == (if |s| <= n then |s| else n) && r == s[..|r|]
  {
    if |s| <= n then s else s[..n]
  }
}
