/** The sort of tools/mapPacker.py line 87: `symNames.sort(key=lambda x: x.addr)`, Python's stable sort
    by address. The list is an array sorted in place by insertion; its specification is the
    functional insertion sort `SortByAddr`, which is sorted, a permutation and stable. */
module MapSort {
  import opened MapParse

  predicate SortedByAddr(s: seq<Symbol>) {
    forall i, j :: 0 <= i < j < |s| ==> s[i].addr <= s[j].addr
  }

  /** `x` placed after every element of `s`, from the back, whose address is not above its own. */
  function Insert(s: seq<Symbol>, x: Symbol): (r: seq<Symbol>)
    ensures |r| == |s| + 1
  {
    if |s| == 0 || s[|s| - 1].addr <= x.addr then s + [x]
    else Insert(s[..|s| - 1], x) + [s[|s| - 1]]
  }

  /** The stable sort by address, as insertion of each element in turn. */
  function SortByAddr(s: seq<Symbol>): (r: seq<Symbol>)
    ensures |r| == |s|
  {
    if |s| == 0 then [] else Insert(SortByAddr(s[..|s| - 1]), s[|s| - 1])
  }

  /** The elements of `s` at address `a`, in their order in `s`. */
  function AtAddr(s: seq<Symbol>, a: nat): seq<Symbol> {
    if |s| == 0 then []
    else AtAddr(s[..|s| - 1], a) + (if s[|s| - 1].addr == a then [s[|s| - 1]] else [])
  }

  lemma {:induction false} AtAddrAppend(s: seq<Symbol>, t: seq<Symbol>, a: nat)
    ensures AtAddr(s + t, a) == AtAddr(s, a) + AtAddr(t, a)
    decreases |t|
  {
    if |t| == 0 {
      assert s + t == s;
    } else {
      assert (s + t)[..|s + t| - 1] == s + t[..|t| - 1];
      AtAddrAppend(s, t[..|t| - 1], a);
    }
  }

  lemma {:induction false} InsertSorted(s: seq<Symbol>, x: Symbol)
    requires SortedByAddr(s)
    ensures SortedByAddr(Insert(s, x))
    ensures forall k :: 0 <= k < |s| + 1 ==> Insert(s, x)[k] == x || Insert(s, x)[k] in s
    decreases |s|
  {
    if |s| > 0 && s[|s| - 1].addr > x.addr {
      var init := s[..|s| - 1];
      InsertSorted(init, x);
      var r := Insert(init, x);
      assert Insert(s, x) == r + [s[|s| - 1]];
      forall k | 0 <= k < |r|
        ensures r[k].addr <= s[|s| - 1].addr
      {
        if r[k] != x {
          var m :| 0 <= m < |init| && init[m] == r[k];
          assert init[m] == s[m];
        }
      }
      forall k | 0 <= k < |r| && r[k] in init
        ensures r[k] in s
      {
        var m :| 0 <= m < |init| && init[m] == r[k];
        assert s[m] == init[m];
      }
    }
  }

  lemma {:induction false} InsertPermutes(s: seq<Symbol>, x: Symbol)
    ensures multiset(Insert(s, x)) == multiset(s) + multiset{x}
    decreases |s|
  {
    if |s| > 0 && s[|s| - 1].addr > x.addr {
      InsertPermutes(s[..|s| - 1], x);
      assert s == s[..|s| - 1] + [s[|s| - 1]];
    }
  }

  /** Inserting `x` puts it after every element at its own address. */
  lemma {:induction false} InsertStable(s: seq<Symbol>, x: Symbol, a: nat)
    ensures AtAddr(Insert(s, x), a) == AtAddr(s, a) + (if x.addr == a then [x] else [])
    decreases |s|
  {
    if |s| > 0 && s[|s| - 1].addr > x.addr {
      var init := s[..|s| - 1];
      InsertStable(init, x, a);
      var r := Insert(init, x);
      assert Insert(s, x)[..|Insert(s, x)| - 1] == r;
    }
  }

  /** The sort puts the addresses in order. */
  lemma {:induction false} SortByAddrSorted(s: seq<Symbol>)
    ensures SortedByAddr(SortByAddr(s))
  {
    if |s| > 0 {
      SortByAddrSorted(s[..|s| - 1]);
      InsertSorted(SortByAddr(s[..|s| - 1]), s[|s| - 1]);
    }
  }

  /** The sort keeps every record, as often as it occurs. */
  lemma {:induction false} SortByAddrPermutes(s: seq<Symbol>)
    ensures multiset(SortByAddr(s)) == multiset(s)
  {
    if |s| > 0 {
      SortByAddrPermutes(s[..|s| - 1]);
      InsertPermutes(SortByAddr(s[..|s| - 1]), s[|s| - 1]);
      assert s == s[..|s| - 1] + [s[|s| - 1]];
    }
  }

  /** The sort is stable: records at any one address keep their original order. */
  lemma {:induction false} SortByAddrStable(s: seq<Symbol>, a: nat)
    ensures AtAddr(SortByAddr(s), a) == AtAddr(s, a)
  {
    if |s| > 0 {
      SortByAddrStable(s[..|s| - 1], a);
      InsertStable(SortByAddr(s[..|s| - 1]), s[|s| - 1], a);
    }
  }

  /** A list that is already in order is left as it is, as `nm --numeric-sort` output mostly is. */
  lemma {:induction false} SortByAddrOfSorted(s: seq<Symbol>)
    requires SortedByAddr(s)
    ensures SortByAddr(s) == s
  {
    if |s| > 0 {
      var init := s[..|s| - 1];
      assert SortedByAddr(init) by {
        forall i, j | 0 <= i < j < |init|
          ensures init[i].addr <= init[j].addr
        {
          assert init[i] == s[i] && init[j] == s[j];
        }
      }
      SortByAddrOfSorted(init);
      assert |init| == 0 || init[|init| - 1].addr <= s[|s| - 1].addr by {
        if |init| > 0 {
          assert init[|init| - 1] == s[|s| - 2];
        }
      }
      assert s == init + [s[|s| - 1]];
    }
  }

  lemma InsertStep(sp: seq<Symbol>, hole: int, key: Symbol)
    requires 0 < hole <= |sp| && sp[hole - 1].addr > key.addr
    ensures Insert(sp[..hole], key) + sp[hole..] == Insert(sp[..hole - 1], key) + sp[hole - 1..]
  {
    assert sp[..hole][..hole - 1] == sp[..hole - 1];
    assert sp[hole - 1..] == [sp[hole - 1]] + sp[hole..];
  }

  lemma InsertStop(sp: seq<Symbol>, hole: int, key: Symbol)
    requires 0 <= hole <= |sp| && (hole == 0 || sp[hole - 1].addr <= key.addr)
    ensures Insert(sp[..hole], key) == sp[..hole] + [key]
  {
  }

  /** Insertion passes over a run of larger addresses at the end. */
  lemma {:induction false} InsertPastLarger(sp: seq<Symbol>, hole: int, key: Symbol)
    requires 0 <= hole <= |sp|
    requires forall k :: hole <= k < |sp| ==> sp[k].addr > key.addr
    ensures Insert(sp, key) == Insert(sp[..hole], key) + sp[hole..]
    decreases |sp| - hole
  {
    if hole == |sp| {
      assert sp[..hole] == sp && sp[hole..] == [];
    } else {
      InsertPastLarger(sp, hole + 1, key);
      InsertStep(sp, hole + 1, key);
    }
  }

  /** The inner loop of insertion: the elements before `a[i]` with a larger address move up by one,
      leaving a hole at the place where `a[i]` goes. */
  method ShiftLarger(a: array<Symbol>, i: int) returns (hole: int)
    requires 0 <= i < a.Length
    modifies a
    ensures 0 <= hole <= i
    ensures forall k :: 0 <= k < hole ==> a[k] == old(a[k])
    ensures forall k :: hole < k <= i ==> a[k] == old(a[k - 1])
    ensures forall k :: i < k < a.Length ==> a[k] == old(a[k])
    ensures hole == 0 || old(a[hole - 1]).addr <= old(a[i]).addr
    ensures Insert(old(a[..i]), old(a[i])) == Insert(old(a[..i])[..hole], old(a[i])) + old(a[..i])[hole..]
  {
    ghost var sp := a[..i];
    var key := a[i];
    hole := i;
    while hole > 0 && a[hole - 1].addr > key.addr
      invariant 0 <= hole <= i
      invariant forall k :: 0 <= k < hole ==> a[k] == sp[k]
      invariant forall k :: hole < k <= i ==> a[k] == sp[k - 1]
      invariant forall k :: i < k < a.Length ==> a[k] == old(a[k])
      invariant forall k :: hole <= k < i ==> sp[k].addr > key.addr
      decreases hole
    {
      a[hole] := a[hole - 1];
      hole := hole - 1;
    }
    InsertPastLarger(sp, hole, key);
  }

  /** One step of insertion: `a[i]` moves down past the larger addresses before it. */
  method InsertLast(a: array<Symbol>, i: int)
    requires 0 <= i < a.Length
    modifies a
    ensures a[..i + 1] == Insert(old(a[..i]), old(a[i]))
    ensures a[i + 1..] == old(a[i + 1..])
  {
    ghost var sp := a[..i];
    var key := a[i];
    var hole := ShiftLarger(a, i);
    a[hole] := key;
    InsertStop(sp, hole, key);
    assert a[..i + 1] == sp[..hole] + [key] + sp[hole..];
  }

  /** `symNames.sort(key=lambda x: x.addr)`. */
  method SortSymbols(a: array<Symbol>)
    modifies a
    ensures a[..] == SortByAddr(old(a[..]))
  {
    for i := 0 to a.Length
      invariant a[..i] == SortByAddr(old(a[..])[..i])
      invariant a[i..] == old(a[..])[i..]
    {
      assert old(a[..])[..i + 1][..i] == old(a[..])[..i];
      InsertLast(a, i);
    }
    assert old(a[..])[..a.Length] == old(a[..]);
  }
}
