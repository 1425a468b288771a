/**
 * `mat grep`: choose the names of a matrix that match a pattern (or, with
 * `invert`, those that do not). The indices `0 .. size-1` are compacted in
 * place with `std::remove_if`, and the prefix that remains is handed to
 * `sample`. The regular expression is a predicate `matches` on names.
 */
module Grep {

  /** Index `i` stays iff whether its name matches differs from `invert`. */
  predicate Keep(names: seq<string>, matches: string -> bool, invert: bool, i: nat)
  {
    i < |names| && matches(names[i]) != invert
  }

  /** The elements of `s` that `keep` accepts, in their order in `s`. */
  function Filter(s: seq<nat>, keep: nat -> bool): (r: seq<nat>)
    ensures |r| <= |s|
  {
    if |s| == 0 then []
    else Filter(s[..|s| - 1], keep) + (if keep(s[|s| - 1]) then [s[|s| - 1]] else [])
  }

  /** Filtering keeps exactly the accepted elements. */
  lemma {:induction false} FilterMembers(s: seq<nat>, keep: nat -> bool)
    ensures forall x :: x in Filter(s, keep) <==> x in s && keep(x)
  {
    if |s| > 0 {
      var init := s[..|s| - 1];
      FilterMembers(init, keep);
      assert s == init + [s[|s| - 1]];
    }
  }

  predicate StrictlyAscending(s: seq<nat>)
  {
    forall i, j :: 0 <= i < j < |s| ==> s[i] < s[j]
  }

  /** Filtering a strictly ascending sequence leaves it strictly ascending: relative order is kept. */
  lemma {:induction false} FilterAscending(s: seq<nat>, keep: nat -> bool)
    requires StrictlyAscending(s)
    ensures StrictlyAscending(Filter(s, keep))
  {
    if |s| > 0 {
      var init := s[..|s| - 1];
      FilterAscending(init, keep);
      FilterMembers(init, keep);
      var f := Filter(init, keep);
      forall k | 0 <= k < |f| ensures f[k] < s[|s| - 1] {
        assert f[k] in init;
      }
    }
  }

  /** The index vector `std::iota` fills: `0, 1, ..., n - 1`. */
  function Iota(n: nat): (r: seq<nat>)
    ensures |r| == n && forall i :: 0 <= i < n ==> r[i] == i
    ensures forall i: nat :: i in r <==> i < n
  {
    var r := seq(n, i => i);
    forall i: nat | i in r ensures i < n {
      var k :| 0 <= k < n && r[k] == i;
    }
    forall i: nat | i < n ensures i in r {
      assert r[i] == i;
    }
    r
  }

  /** The indices `grep` keeps, in ascending order. */
  function Kept(names: seq<string>, matches: string -> bool, invert: bool): (r: seq<nat>)
    ensures |r| <= |names|
    ensures StrictlyAscending(r)
    ensures forall i: nat :: i in r <==> i < |names| && matches(names[i]) != invert
  {
    var keep := (i: nat) => Keep(names, matches, invert, i);
    FilterMembers(Iota(|names|), keep);
    FilterAscending(Iota(|names|), keep);
    Filter(Iota(|names|), keep)
  }

  /** The indices kept with `invert` are exactly those dropped without it. */
  lemma InvertComplement(names: seq<string>, matches: string -> bool, i: nat)
    requires i < |names|
    ensures i in Kept(names, matches, true) <==> i !in Kept(names, matches, false)
  {
  }

  /**
   * `std::remove_if` with the predicate `!keep`: the elements `keep` accepts
   * move, in order, to the front of `a`, and the end of that prefix is
   * returned; the elements past it are left unspecified, as in the library.
   */
  method RemoveIf(a: array<nat>, keep: nat -> bool) returns (split: nat)
    modifies a
    ensures split <= a.Length
    ensures a[..split] == Filter(old(a[..]), keep)
  {
    ghost var original := a[..];
    split := 0;
    for r := 0 to a.Length
      invariant split <= r
      invariant a[..split] == Filter(original[..r], keep)
      invariant a[r..] == original[r..]
    {
      assert original[..r + 1][..r] == original[..r];
      assert a[r] == original[r];
      if keep(a[r]) {
        a[split] := a[r];
        split := split + 1;
      }
    }
    assert original[..a.Length] == original;
  }

  /**
   * `grep` up to the call of `sample`: the iota-filled index vector,
   * compacted by `remove_if`, and its prefix `[begin, split)`.
   */
  method GrepIndices(names: seq<string>, matches: string -> bool, invert: bool) returns (kept: seq<nat>)
    ensures kept == Kept(names, matches, invert)
  {
    var size := |names|;
    var indices := new nat[size](i => i);
    assert indices[..] == Iota(size);
    var split := RemoveIf(indices, (i: nat) => Keep(names, matches, invert, i));
    kept := indices[..split];
  }
}
