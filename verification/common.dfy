/**
 * Bytes, 20-byte account addresses and the byte-lexicographic order
 * (`bytes.Compare`) that both the pool lists and the validator list are
 * sorted by.
 */
module Common {

  newtype byte = x: int | 0 <= x < 0x100

  newtype uint32 = x: int | 0 <= x < 0x1_0000_0000

  const AddressLength: nat := 20

  /** `common.Address`: a fixed-size 20-byte identifier. */
  type Address = a: seq<byte> | |a| == AddressLength witness seq(20, _ => 0 as byte)

  /** The zero value of `common.Address`, returned for a missing map entry. */
  const ZeroAddress: Address := seq(20, _ => 0 as byte)

  /** The set of the entries of a sequence. */
  function Elements(s: seq<Address>): set<Address>
  {
    set x | x in s
  }

  predicate Distinct(s: seq<Address>)
  {
    forall i, j :: 0 <= i < j < |s| ==> s[i] != s[j]
  }

  /**
   * `bytes.Compare`: -1, 0 or +1 as `a` is below, equal to or above `b` in
   * lexicographic byte order (a proper prefix is below).
   */
  function Compare(a: seq<byte>, b: seq<byte>): (c: int)
    ensures -1 <= c <= 1
    decreases |a|
  {
    if a == [] then (if b == [] then 0 else -1)
    else if b == [] then 1
    else if a[0] < b[0] then -1
    else if a[0] > b[0] then 1
    else Compare(a[1..], b[1..])
  }

  /** `Compare` reports 0 exactly for equal sequences. */
  lemma {:induction false} CompareZero(a: seq<byte>, b: seq<byte>)
    ensures Compare(a, b) == 0 <==> a == b
    decreases |a|
  {
    if a != [] && b != [] && a[0] == b[0] {
      CompareZero(a[1..], b[1..]);
      assert a == [a[0]] + a[1..] && b == [b[0]] + b[1..];
    }
  }

  lemma {:induction false} CompareAntisymmetric(a: seq<byte>, b: seq<byte>)
    ensures Compare(a, b) == -Compare(b, a)
    decreases |a|
  {
    if a != [] && b != [] && a[0] == b[0] {
      CompareAntisymmetric(a[1..], b[1..]);
    }
  }

  lemma {:induction false} CompareTransitive(a: seq<byte>, b: seq<byte>, c: seq<byte>)
    requires Compare(a, b) <= 0 && Compare(b, c) <= 0
    ensures Compare(a, c) <= 0
    decreases |a|
  {
    if a != [] && b != [] && c != [] && a[0] == b[0] == c[0] {
      CompareTransitive(a[1..], b[1..], c[1..]);
    }
  }

  /** A chain of two steps, one of them strict, is strict. */
  lemma CompareStrict(a: seq<byte>, b: seq<byte>, c: seq<byte>)
    requires Compare(a, b) <= 0 && Compare(b, c) <= 0
    requires Compare(a, b) < 0 || Compare(b, c) < 0
    ensures Compare(a, c) < 0
  {
  }

  /** `x` may stand before `y`: ascending (`desc` false) or descending. */
  predicate Ordered(x: Address, y: Address, desc: bool)
  {
    if desc then Compare(x, y) >= 0 else Compare(x, y) <= 0
  }

  /** Every element may stand before the next one. */
  predicate Sorted(s: seq<Address>, desc: bool)
  {
    |s| < 2 || (Ordered(s[0], s[1], desc) && Sorted(s[1..], desc))
  }

  /** Ascending byte order, as a pool's delegator list is kept. */
  predicate Ascending(s: seq<Address>)
  {
    Sorted(s, false)
  }

  /** Non-increasing byte order, as the validator list is kept. */
  predicate Descending(s: seq<Address>)
  {
    Sorted(s, true)
  }

  lemma OrderedAntisymmetric(x: Address, y: Address, desc: bool)
    requires Ordered(x, y, desc) && Ordered(y, x, desc)
    ensures x == y
  {
    CompareAntisymmetric(x, y);
    CompareZero(x, y);
  }

  lemma OrderedTransitive(x: Address, y: Address, z: Address, desc: bool)
    requires Ordered(x, y, desc) && Ordered(y, z, desc)
    ensures Ordered(x, z, desc)
  {
    if desc {
      CompareAntisymmetric(x, y);
      CompareAntisymmetric(y, z);
      CompareAntisymmetric(x, z);
      CompareTransitive(z, y, x);
    } else {
      CompareTransitive(x, y, z);
    }
  }

  /** Order between neighbours is order between every two positions. */
  lemma {:induction false} SortedPairs(s: seq<Address>, desc: bool)
    ensures Sorted(s, desc) <==> forall i, j :: 0 <= i < j < |s| ==> Ordered(s[i], s[j], desc)
    decreases |s|
  {
    if |s| >= 2 {
      var t := s[1..];
      SortedPairs(t, desc);
      if Sorted(s, desc) {
        forall i, j | 0 <= i < j < |s|
          ensures Ordered(s[i], s[j], desc)
        {
          assert s[j] == t[j - 1];
          if i == 0 {
            if j > 1 {
              assert Ordered(t[0], t[j - 1], desc);
              OrderedTransitive(s[0], s[1], s[j], desc);
            }
          } else {
            assert s[i] == t[i - 1];
          }
        }
      }
      if forall i, j :: 0 <= i < j < |s| ==> Ordered(s[i], s[j], desc) {
        forall i, j | 0 <= i < j < |t|
          ensures Ordered(t[i], t[j], desc)
        {
          assert t[i] == s[i + 1] && t[j] == s[j + 1];
        }
      }
    }
  }

  /** Two sorted arrangements of one multiset start with the same element. */
  lemma SortedSameHead(a: seq<Address>, b: seq<Address>, desc: bool)
    requires Sorted(a, desc) && Sorted(b, desc)
    requires a != [] && multiset(a) == multiset(b)
    ensures b != [] && a[0] == b[0]
  {
    SortedPairs(a, desc);
    SortedPairs(b, desc);
    assert a[0] in multiset(b);
    var j :| 0 <= j < |b| && b[j] == a[0];
    assert b[0] in multiset(a);
    var k :| 0 <= k < |a| && a[k] == b[0];
    if a[0] != b[0] {
      assert Ordered(b[0], b[j], desc) && Ordered(a[0], a[k], desc);
      OrderedAntisymmetric(a[0], b[0], desc);
    }
  }

  /**
   * A sorted arrangement of a multiset is unique. So whichever (stable or
   * not) sort produced a sorted list, the list is determined by its
   * elements alone, and every node computes the same one.
   */
  lemma {:induction false} SortedUnique(a: seq<Address>, b: seq<Address>, desc: bool)
    requires Sorted(a, desc) && Sorted(b, desc)
    requires multiset(a) == multiset(b)
    ensures a == b
    decreases |a|
  {
    if a == [] {
      assert |b| == |multiset(b)| == 0;
    } else {
      SortedSameHead(a, b, desc);
      assert a == [a[0]] + a[1..] && b == [b[0]] + b[1..];
      assert multiset(a[1..]) == multiset(b[1..]) by {
        assert multiset(a) == multiset{a[0]} + multiset(a[1..]);
        assert multiset(b) == multiset{b[0]} + multiset(b[1..]);
        assert multiset(a[1..]) == multiset(a) - multiset{a[0]};
        assert multiset(b[1..]) == multiset(b) - multiset{b[0]};
      }
      SortedUnique(a[1..], b[1..], desc);
    }
  }
}
