/**
 * The committee chosen for one round and step: the sampled addresses, the
 * same addresses with every delegator replaced by its delegatee, and the
 * number of distinct voters that leaves.
 */
module Committee {
  import opened Common

  /** `StepValidators`: `addresses` is the delegation-collapsed set and `size` its cardinality. */
  datatype StepValidators = StepValidators(original: set<Address>, addresses: set<Address>, size: int)
  {
    /** `StepValidators.Contains`: membership in the collapsed set only. */
    predicate Contains(addr: Address)
    {
      addr in addresses
    }
  }

  /** The address that votes for `a`: its delegatee if it has one, else itself. */
  function Resolve(delegations: map<Address, Address>, a: Address): Address
  {
    if a in delegations then delegations[a] else a
  }

  /** Delegation substitution applied to a whole set. */
  function Effective(delegations: map<Address, Address>, original: set<Address>): set<Address>
  {
    set a | a in original :: Resolve(delegations, a)
  }

  /** The committee built from a sampled set: collapsed set and its size. */
  function CommitteeOf(delegations: map<Address, Address>, original: set<Address>): StepValidators
  {
    var e := Effective(delegations, original);
    StepValidators(original, e, |e|)
  }

  /** Collapsing never adds voters. */
  lemma {:induction false} EffectiveNoLarger(delegations: map<Address, Address>, original: set<Address>)
    ensures |Effective(delegations, original)| <= |original|
    decreases |original|
  {
    if original != {} {
      var x :| x in original;
      var rest := original - {x};
      EffectiveNoLarger(delegations, rest);
      assert Effective(delegations, original) == Effective(delegations, rest) + {Resolve(delegations, x)};
    }
  }

  /** Collapsing loses no voter when no member of the set has a delegation edge. */
  lemma EffectiveWithoutDelegators(delegations: map<Address, Address>, original: set<Address>)
    requires original !! delegations.Keys
    ensures Effective(delegations, original) == original
  {
  }

  /**
   * A committee holds `a` exactly when `a` was sampled and delegates to
   * no one, or a sampled address delegates to `a`: a sampled delegator is
   * not a member in its own name.
   */
  lemma CommitteeContains(delegations: map<Address, Address>, original: set<Address>, a: Address)
    ensures CommitteeOf(delegations, original).Contains(a) <==>
              (a in original && a !in delegations)
              || (exists x :: x in original && x in delegations && delegations[x] == a)
    ensures CommitteeOf(delegations, original).size <= |original|
  {
    EffectiveNoLarger(delegations, original);
    if a in original && a !in delegations {
      assert Resolve(delegations, a) == a;
    }
  }

  /** `perm` is a permutation of `[0, n)`, as `rand.Perm(n)` returns. */
  predicate IsPermutation(perm: seq<nat>, n: nat)
  {
    && |perm| == n
    && (forall i :: 0 <= i < n ==> perm[i] < n)
    && (forall i, j :: 0 <= i < j < n ==> perm[i] != perm[j])
  }

  /** The addresses at the first `k` permuted positions. */
  function Sample(validators: seq<Address>, perm: seq<nat>, k: int): set<Address>
    requires IsPermutation(perm, |validators|) && k <= |validators|
    decreases k
  {
    if k <= 0 then {} else Sample(validators, perm, k - 1) + {validators[perm[k - 1]]}
  }

  /** A sample holds exactly the addresses at the first `k` permuted positions. */
  lemma {:induction false} SampleMembers(validators: seq<Address>, perm: seq<nat>, k: int, a: Address)
    requires IsPermutation(perm, |validators|) && 0 <= k <= |validators|
    ensures a in Sample(validators, perm, k) <==> exists i :: 0 <= i < k && validators[perm[i]] == a
    ensures a in Sample(validators, perm, k) ==> a in validators
    decreases k
  {
    if k > 0 {
      SampleMembers(validators, perm, k - 1, a);
      if validators[perm[k - 1]] == a {
        assert 0 <= k - 1 < k;
      }
    }
  }

  /**
   * A sample of `k` positions has at most `k` addresses, and exactly `k`
   * when the validator list has no repeated entry.
   */
  lemma {:induction false} SampleSize(validators: seq<Address>, perm: seq<nat>, k: int)
    requires IsPermutation(perm, |validators|) && 0 <= k <= |validators|
    ensures |Sample(validators, perm, k)| <= k
    ensures Distinct(validators) ==> |Sample(validators, perm, k)| == k
    decreases k
  {
    if k > 0 {
      SampleSize(validators, perm, k - 1);
      var x := validators[perm[k - 1]];
      if Distinct(validators) {
        SampleMembers(validators, perm, k - 1, x);
        assert x !in Sample(validators, perm, k - 1);
      }
    }
  }
}
