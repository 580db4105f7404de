/**
 * One pool's delegator list: addresses kept in ascending byte order, grown
 * by inserting at the position a binary search finds, and searched the
 * same way.
 */
module SortedAddressList {
  import opened Common

  /**
   * `sort.Search` with the predicate "element is not below `addr`": the
   * first position whose element is at least `addr`, or `|list|`.
   */
  method SearchNotBelow(list: seq<Address>, addr: Address) returns (i: nat)
    requires Ascending(list)
    ensures i <= |list|
    ensures forall k :: 0 <= k < i ==> Compare(list[k], addr) < 0
    ensures forall k :: i <= k < |list| ==> Compare(list[k], addr) >= 0
  {
    SortedPairs(list, false);
    var lo, hi := 0, |list|;
    while lo < hi
      invariant 0 <= lo <= hi <= |list|
      invariant forall k :: 0 <= k < lo ==> Compare(list[k], addr) < 0
      invariant forall k :: hi <= k < |list| ==> Compare(list[k], addr) >= 0
      decreases hi - lo
    {
      var h := (lo + hi) / 2;
      if Compare(list[h], addr) < 0 {
        forall k | lo <= k <= h
          ensures Compare(list[k], addr) < 0
        {
          CompareZero(list[k], list[h]);
          assert Ordered(list[k], list[h], false);
          CompareStrict(list[k], list[h], addr);
        }
        lo := h + 1;
      } else {
        forall k | h <= k < hi
          ensures Compare(list[k], addr) >= 0
        {
          CompareZero(list[h], list[k]);
          assert Ordered(list[h], list[k], false);
          CompareAntisymmetric(list[h], addr);
          CompareTransitive(addr, list[h], list[k]);
          CompareAntisymmetric(list[k], addr);
        }
        hi := h;
      }
    }
    i := lo;
  }

  /**
   * The position of the first occurrence of `addr` in `list`, or -1 when
   * `addr` does not occur: the reference, by linear scan, for `Index`.
   */
  function FirstIndex(list: seq<Address>, addr: Address): (r: int)
    ensures -1 <= r < |list|
    ensures r == -1 <==> addr !in list
    ensures r >= 0 ==> list[r] == addr && addr !in list[..r]
  {
    if list == [] then -1
    else if list[0] == addr then 0
    else
      var t := FirstIndex(list[1..], addr);
      assert list == [list[0]] + list[1..];
      assert t >= 0 ==> list[..t + 1] == [list[0]] + list[1..][..t];
      if t == -1 then -1 else t + 1
  }

  /** Inserting `addr` where the search stopped keeps the list ascending. */
  lemma InsertAtSearchPosition(list: seq<Address>, i: nat, addr: Address)
    requires Ascending(list) && i <= |list|
    requires forall k :: 0 <= k < i ==> Compare(list[k], addr) < 0
    requires forall k :: i <= k < |list| ==> Compare(list[k], addr) >= 0
    ensures Ascending(list[..i] + [addr] + list[i..])
  {
    SortedPairs(list, false);
    var t := list[..i] + [addr] + list[i..];
    forall p, q | 0 <= p < q < |t|
      ensures Ordered(t[p], t[q], false)
    {
      if q < i || p > i {
        assert t[p] == list[if p < i then p else p - 1];
        assert t[q] == list[if q < i then q else q - 1];
      } else if p == i {
        CompareAntisymmetric(list[q - 1], addr);
      }
    }
    SortedPairs(t, false);
  }

  /** `sortedAddresses`: a pool's delegators in ascending byte order. */
  class SortedAddresses {
    var list: seq<Address>

    ghost predicate Valid()
      reads this
    {
      Ascending(list)
    }

    constructor ()
      ensures Valid() && list == []
    {
      list := [];
    }

    /**
     * `add`: inserts `addr` before the first element not below it. An
     * address already present is inserted again.
     */
    method Add(addr: Address)
      requires Valid()
      modifies this
      ensures Valid()
      ensures |list| == |old(list)| + 1
      ensures multiset(list) == multiset(old(list)) + multiset{addr}
    {
      var i := SearchNotBelow(list, addr);
      InsertAtSearchPosition(list, i, addr);
      assert list == list[..i] + list[i..];
      list := list[..i] + [addr] + list[i..];
    }

    /** `index`: binary search; the first position holding `addr`, or -1. */
    method Index(addr: Address) returns (r: int)
      requires Valid()
      ensures r == FirstIndex(list, addr)
    {
      var i := SearchNotBelow(list, addr);
      if i == |list| {
        CompareZero(addr, addr);
        return -1;
      }
      CompareZero(list[i], addr);
      if Compare(list[i], addr) == 0 {
        return i;
      }
      SortedPairs(list, false);
      forall k | i < k < |list|
        ensures list[k] != addr
      {
        assert Ordered(list[i], list[k], false);
      }
      CompareZero(addr, addr);
      return -1;
    }
  }

  /**
   * How many entries of `except` stand at a non-zero first position of
   * `list`: what `PoolSizeExceptNodes` subtracts. Entries are counted once
   * per occurrence in `except`.
   */
  function ExceptedCount(list: seq<Address>, except: seq<Address>): (n: nat)
    ensures n <= |except|
  {
    if except == [] then 0
    else ExceptedCount(list, except[..|except| - 1])
         + (if FirstIndex(list, except[|except| - 1]) > 0 then 1 else 0)
  }

  /**
   * An entry is subtracted exactly when it occurs in the list and is not
   * the list's smallest element; counts of consecutive parts of `except`
   * add up, so an address listed twice is subtracted twice.
   */
  lemma {:induction false} ExceptedCountConcat(list: seq<Address>, a: seq<Address>, b: seq<Address>)
    ensures ExceptedCount(list, a + b) == ExceptedCount(list, a) + ExceptedCount(list, b)
    ensures forall x :: ExceptedCount(list, [x]) == (if x in list && x != list[0] then 1 else 0)
    decreases |b|
  {
    forall x
      ensures ExceptedCount(list, [x]) == (if x in list && x != list[0] then 1 else 0)
    {
      assert [x][..0] == [];
    }
    if b != [] {
      var b' := b[..|b| - 1];
      assert (a + b)[..|a + b| - 1] == a + b';
      ExceptedCountConcat(list, a, b');
    } else {
      assert a + b == a;
    }
  }
}
