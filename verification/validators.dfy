/**
 * The validator-set cache: rebuilt from one scan of the identity state, it
 * holds the online and approved sets, the delegation edges, one sorted
 * delegator list per delegatee and the validator list sorted descending,
 * and answers committee, size and membership queries from them.
 */
module Validators {
  import opened Common
  import opened IdentityScan
  import opened SortedAddressList
  import opened Committee

  /** What the cache reads of a committed block: the identity-update flag and the height. */
  datatype Block = Block(identityUpdate: bool, height: nat)

  /** Everything a cache holds, as values (pool objects replaced by their lists). */
  datatype CacheView = CacheView(
    validators: seq<Address>,
    pools: map<Address, seq<Address>>,
    delegations: map<Address, Address>,
    approved: set<Address>,
    online: set<Address>,
    god: Address,
    height: nat)

  /**
   * Inserts `x` after every element at least as large: a stable insertion
   * into a non-increasing list.
   */
  function InsertDescending(r: seq<Address>, x: Address): (t: seq<Address>)
    requires Descending(r)
    ensures Descending(t)
    ensures multiset(t) == multiset(r) + multiset{x}
    decreases |r|
  {
    if r == [] then [x]
    else if Compare(r[0], x) >= 0 then
      var rest := InsertDescending(r[1..], x);
      HeadBoundsInsertion(r, x, rest);
      assert r == [r[0]] + r[1..];
      [r[0]] + rest
    else
      HeadDominates(x, r);
      [x] + r
  }

  /** Prepending an element at least as large as every element keeps a list non-increasing. */
  lemma PrependDescending(h: Address, t: seq<Address>)
    requires Descending(t)
    requires forall y :: y in t ==> Compare(h, y) >= 0
    ensures Descending([h] + t)
  {
  }

  lemma HeadBoundsInsertion(r: seq<Address>, x: Address, rest: seq<Address>)
    requires Descending(r) && r != [] && Compare(r[0], x) >= 0
    requires Descending(rest) && multiset(rest) == multiset(r[1..]) + multiset{x}
    ensures Descending([r[0]] + rest)
  {
    SortedPairs(r, true);
    forall y | y in rest
      ensures Compare(r[0], y) >= 0
    {
      assert y in multiset(rest);
      if y != x {
        assert y in multiset(r[1..]);
        var j :| 0 <= j < |r[1..]| && r[1..][j] == y;
        assert r[j + 1] == y && Ordered(r[0], r[j + 1], true);
      }
    }
    PrependDescending(r[0], rest);
  }

  lemma HeadDominates(x: Address, r: seq<Address>)
    requires Descending(r) && r != [] && Compare(r[0], x) < 0
    ensures Descending([x] + r)
  {
    SortedPairs(r, true);
    forall y | y in r
      ensures Compare(x, y) >= 0
    {
      var j :| 0 <= j < |r| && r[j] == y;
      CompareZero(r[0], r[j]);
      assert Ordered(r[0], r[j], true);
      CompareAntisymmetric(r[0], x);
      OrderedTransitive(x, r[0], y, true);
    }
    PrependDescending(x, r);
  }

  /**
   * `sortValidNodes`: the list in non-increasing byte order, a
   * rearrangement of its input. By `SortedUnique` no other list has both
   * properties, so this is what any sort, stable or not, returns.
   */
  function SortValidNodes(nodes: seq<Address>): (r: seq<Address>)
    ensures Descending(r)
    ensures multiset(r) == multiset(nodes)
  {
    if nodes == [] then []
    else
      var init := nodes[..|nodes| - 1];
      assert nodes == init + [nodes[|nodes| - 1]];
      InsertDescending(SortValidNodes(init), nodes[|nodes| - 1])
  }

  /**
   * Counting identity of `ForkCommitteeSize`: when every delegator is
   * approved and no delegatee is itself a delegator, the formula counts
   * one unit per approved address that does not delegate plus one per
   * pool, each once.
   */
  lemma ForkCommitteeUnits(approved: set<Address>, delegations: map<Address, Address>, owners: set<Address>)
    requires delegations.Keys <= approved
    requires owners !! delegations.Keys
    ensures |approved| - |delegations| + |owners - approved|
            == |(approved - delegations.Keys) + owners|
  {
    var solo := approved - delegations.Keys;
    var outside := owners - approved;
    assert approved == solo + delegations.Keys && solo !! delegations.Keys;
    assert |approved| == |solo| + |delegations.Keys|;
    assert solo + owners == solo + outside by {
      forall a | a in owners
        ensures a in solo + outside
      {
        assert a !in delegations.Keys;
      }
    }
    assert solo !! outside;
    assert |solo + outside| == |solo| + |outside|;
  }

  /** A pool list holding the delegators `ds`: ascending, non-empty, the same entries. */
  ghost predicate PoolHolds(list: seq<Address>, ds: seq<Address>)
  {
    Ascending(list) && list != [] && multiset(list) == multiset(ds)
  }

  /** Pool lists holding the gathered delegators: one per delegatee. */
  ghost predicate ListsMatch(lists: map<Address, seq<Address>>, delegators: map<Address, seq<Address>>)
  {
    && lists.Keys == delegators.Keys
    && forall p :: p in lists ==> PoolHolds(lists[p], delegators[p])
  }

  /**
   * Adding the delegator of a record with a delegatee to that delegatee's
   * list keeps the lists matching the gathered delegators.
   */
  lemma ListsStep(lists: map<Address, seq<Address>>, s: Summary, r: Record, list': seq<Address>)
    requires ListsMatch(lists, s.delegators) && r.id.delegatee.Some?
    requires var d := r.id.delegatee.value;
             && Ascending(list')
             && multiset(list') == (if d in lists then multiset(lists[d]) else multiset{}) + multiset{r.addr}
    ensures ListsMatch(lists[r.id.delegatee.value := list'], Absorb(s, r).delegators)
  {
  }

  /** Lists matching what a scan gathered hold, per delegatee, exactly its delegators. */
  lemma ListsHoldDelegators(lists: map<Address, seq<Address>>, rs: seq<Record>)
    requires ListsMatch(lists, Summarize(rs).delegators)
    ensures lists.Keys == PoolOwners(rs)
    ensures forall p :: p in lists ==> PoolHolds(lists[p], DelegatorsOf(rs, p))
  {
  }

  /**
   * The validator entries the cache's own fields give for the online
   * addresses `ns`, in order: each one itself if approved, then its pool
   * list.
   */
  ghost function ListedSeq(ns: seq<Address>, approved: set<Address>, lists: map<Address, seq<Address>>): seq<Address>
  {
    if ns == [] then []
    else
      var n := ns[|ns| - 1];
      ListedSeq(ns[..|ns| - 1], approved, lists)
      + (if n in approved then [n] else [])
      + (if n in lists then lists[n] else [])
  }

  /** Once the sets and lists reflect the scan, the listed entries are the validator bag. */
  lemma {:induction false} ListedSeqIsValidatorBag(ns: seq<Address>, rs: seq<Record>, lists: map<Address, seq<Address>>)
    requires ListsMatch(lists, Summarize(rs).delegators)
    ensures multiset(ListedSeq(ns, ApprovedSet(rs), lists)) == BagOver(rs, ns)
  {
    if ns != [] {
      var n := ns[|ns| - 1];
      ListedSeqIsValidatorBag(ns[..|ns| - 1], rs, lists);
      PoolOwnersHaveDelegators(rs, n);
    }
  }

  /** The loop of `ForkCommitteeSize`: how many of `keys` are not in `approved`. */
  method CountOutside(keys: set<Address>, approved: set<Address>) returns (n: nat)
    ensures n == |keys - approved|
  {
    n := 0;
    var rest := keys;
    while rest != {}
      invariant n + |rest - approved| == |keys - approved|
      decreases |rest|
    {
      var p :| p in rest;
      if p !in approved {
        assert (rest - {p}) - approved == (rest - approved) - {p};
        n := n + 1;
      } else {
        assert (rest - {p}) - approved == rest - approved;
      }
      rest := rest - {p};
    }
  }

  class ValidatorsCache {
    var sortedValidators: seq<Address>
    var pools: map<Address, SortedAddresses>
    var delegations: map<Address, Address>
    var nodesSet: set<Address>
    var onlineNodesSet: set<Address>
    var god: Address
    var height: nat

    /** Every pool list is ascending and non-empty. */
    ghost predicate PoolsValid()
      reads this`pools, pools.Values
    {
      forall p :: p in pools ==> pools[p].Valid() && pools[p].list != []
    }

    /** Every pool list is ascending and non-empty; the validator list is non-increasing. */
    ghost predicate Valid()
      reads this`pools, this`sortedValidators, pools.Values
    {
      PoolsValid() && Descending(sortedValidators)
    }

    ghost function View(): CacheView
      reads this, pools.Values
    {
      CacheView(sortedValidators, Lists(),
                delegations, nodesSet, onlineNodesSet, god, height)
    }

    /** The sets, the delegation edges and the pools are what the scan of `entries` determines. */
    ghost predicate Scanned(entries: seq<Entry>)
      reads this`onlineNodesSet, this`nodesSet, this`delegations, this`pools, pools.Values
    {
      var rs := Records(entries);
      && onlineNodesSet == Elements(OnlineOrder(rs))
      && nodesSet == ApprovedSet(rs)
      && delegations == DelegationMap(rs)
      && pools.Keys == PoolOwners(rs)
      && (forall p :: p in pools ==> multiset(pools[p].list) == multiset(DelegatorsOf(rs, p)))
    }

    /** The derived state is what the scan of `entries` determines. */
    ghost predicate Reflects(entries: seq<Entry>)
      reads this`onlineNodesSet, this`nodesSet, this`delegations, this`pools, this`sortedValidators, pools.Values
    {
      Scanned(entries) && multiset(sortedValidators) == ValidatorBag(Records(entries))
    }

    /** `NewValidatorsCache`: empty, with the given god address. */
    constructor (godAddress: Address)
      ensures Valid()
      ensures View() == CacheView([], map[], map[], {}, {}, godAddress, 0)
    {
      sortedValidators := [];
      pools := map[];
      delegations := map[];
      nodesSet := {};
      onlineNodesSet := {};
      god := godAddress;
      height := 0;
    }

    /** The pool lists, as values. */
    ghost function Lists(): map<Address, seq<Address>>
      reads this`pools, pools.Values
    {
      map p | p in pools :: pools[p].list
    }

    /** Distinct delegatees have distinct pool objects. */
    ghost predicate PoolsDistinct()
      reads this`pools
    {
      forall p, q :: p in pools && q in pools && p != q ==> pools[p] != pools[q]
    }

    /**
     * The validator list before sorting: for each online address in scan
     * order, the address itself if approved, then its pool's delegators.
     * Nothing is deduplicated.
     */
    method CollectValidators(onlineNodes: seq<Address>) returns (validators: seq<Address>)
      ensures validators == ListedSeq(onlineNodes, nodesSet, Lists())
    {
      validators := [];
      for j := 0 to |onlineNodes|
        invariant validators == ListedSeq(onlineNodes[..j], nodesSet, Lists())
      {
        var n := onlineNodes[j];
        assert onlineNodes[..j + 1][..j] == onlineNodes[..j];
        if n in nodesSet {
          validators := validators + [n];
        }
        if n in pools {
          validators := validators + pools[n].list;
        }
      }
      assert onlineNodes[..|onlineNodes|] == onlineNodes;
    }

    /** The pools hold the gathered delegators, one pool object per delegatee. */
    ghost predicate PoolsMatch(delegators: map<Address, seq<Address>>)
      reads this`pools, pools.Values
    {
      PoolsDistinct() && ListsMatch(Lists(), delegators)
    }

    /**
     * The cache fields during a scan, after gathering `s`, and the online
     * addresses met so far.
     */
    ghost predicate Scanning(s: Summary, onlineNodes: seq<Address>)
      reads this, pools.Values
    {
      && onlineNodes == s.online
      && onlineNodesSet == Elements(onlineNodes)
      && nodesSet == s.approved
      && delegations == s.delegations
      && PoolsMatch(s.delegators)
    }

    /** Adds `addr` to the pool of `d`, creating the pool on first use; no other pool changes. */
    method JoinPool(addr: Address, d: Address)
      requires PoolsDistinct() && (d in pools ==> pools[d].Valid())
      modifies this`pools, pools.Values
      ensures PoolsDistinct() && pools.Keys == old(pools.Keys) + {d}
      ensures pools[d].Valid()
      ensures multiset(pools[d].list)
              == (if d in old(pools) then multiset(old(pools[d].list)) else multiset{}) + multiset{addr}
      ensures fresh(pools.Values - old(pools.Values))
      ensures Lists() == old(Lists())[d := pools[d].list]
    {
      var list: SortedAddresses;
      if d in pools {
        list := pools[d];
      } else {
        list := new SortedAddresses();
        pools := pools[d := list];
      }
      ghost var lists := old(Lists());
      list.Add(addr);
      ghost var after := lists[d := list.list];
      assert Lists().Keys == after.Keys;
      forall p | p in after
        ensures Lists()[p] == after[p]
      {
        if p != d {
          assert pools[p].list == old(pools[p].list) == lists[p];
        }
      }
    }

    /** The pool step of a record with a delegatee: the record's address joins that delegatee's pool. */
    method JoinDelegateePool(r: Record, ghost s: Summary)
      requires PoolsMatch(s.delegators) && r.id.delegatee.Some?
      modifies this`pools, pools.Values
      ensures PoolsMatch(Absorb(s, r).delegators)
      ensures fresh(pools.Values - old(pools.Values))
    {
      var d := r.id.delegatee.value;
      ghost var lists := Lists();
      assert d in pools ==> lists[d] == pools[d].list && PoolHolds(lists[d], s.delegators[d]);
      JoinPool(r.addr, d);
      ListsStep(lists, s, r, pools[d].list);
    }

    /**
     * The delegation part of one record: a record with a delegatee gets a
     * delegation edge and joins that delegatee's pool (created on first
     * use); a record without one changes nothing here.
     */
    method Delegate(r: Record, ghost s: Summary)
      requires PoolsMatch(s.delegators) && delegations == s.delegations
      modifies this`delegations, this`pools, pools.Values
      ensures PoolsMatch(Absorb(s, r).delegators) && delegations == Absorb(s, r).delegations
      ensures fresh(pools.Values - old(pools.Values))
    {
      if r.id.delegatee.Some? {
        JoinDelegateePool(r, s);
        delegations := delegations[r.addr := r.id.delegatee.value];
      }
    }

    /** One decoded record: online list and set, approved set, then its delegation. */
    method AddRecord(r: Record, onlineNodes: seq<Address>, ghost s: Summary)
      returns (onlineNodes': seq<Address>)
      requires Scanning(s, onlineNodes)
      modifies this`onlineNodesSet, this`nodesSet, this`delegations, this`pools, pools.Values
      ensures Scanning(Absorb(s, r), onlineNodes')
      ensures fresh(pools.Values - old(pools.Values))
    {
      onlineNodes' := onlineNodes + (if r.id.online then [r.addr] else []);
      assert Elements(onlineNodes') == Elements(onlineNodes) + (if r.id.online then {r.addr} else {});
      onlineNodesSet, nodesSet :=
        onlineNodesSet + (if r.id.online then {r.addr} else {}),
        nodesSet + (if r.id.approved then {r.addr} else {});
      Delegate(r, s);
    }

    /**
     * The iteration callback of `loadValidNodes`: a nil key stops the
     * scan; a value that does not decode is skipped and the scan goes on;
     * otherwise the record is taken in.
     */
    method VisitIdentity(e: Entry, onlineNodes: seq<Address>, ghost s: Summary)
      returns (stop: bool, onlineNodes': seq<Address>)
      requires Scanning(s, onlineNodes)
      modifies this`onlineNodesSet, this`nodesSet, this`delegations, this`pools, pools.Values
      ensures stop <==> e.key.None?
      ensures Scanning(Visit(s, e), onlineNodes')
      ensures fresh(pools.Values - old(pools.Values))
    {
      onlineNodes' := onlineNodes;
      if e.key.None? {
        return true, onlineNodes';
      }
      if e.value.None? {
        return false, onlineNodes';
      }
      onlineNodes' := AddRecord(Record(e.key.value, e.value.value), onlineNodes, s);
      return false, onlineNodes';
    }

    /** Empties the approved and online sets, the delegation map and the pools. */
    method ClearDerived()
      modifies this`onlineNodesSet, this`nodesSet, this`delegations, this`pools
      ensures Scanning(Summary([], {}, map[], map[]), []) && pools == map[]
    {
      nodesSet := {};
      onlineNodesSet := {};
      delegations := map[];
      pools := map[];
    }

    /**
     * The scan part of `loadValidNodes`: clears the derived sets, maps and
     * pools, then visits the identity state until the callback stops it.
     */
    method ScanIdentities(entries: seq<Entry>) returns (onlineNodes: seq<Address>)
      modifies this`onlineNodesSet, this`nodesSet, this`delegations, this`pools
      ensures Scanning(Summarize(Records(entries)), onlineNodes)
      ensures fresh(pools.Values)
    {
      onlineNodes := [];
      ClearDerived();
      SummarizeEmpty();
      var i := 0;
      var stop := false;
      ghost var rs: seq<Record> := [];
      ghost var s := Summarize(rs);
      while i < |entries| && !stop
        invariant 0 <= i <= ScanEnd(entries)
        invariant stop ==> i == ScanEnd(entries)
        invariant rs == Decoded(entries[..i]) && s == Summarize(rs)
        invariant Scanning(s, onlineNodes)
        invariant fresh(pools.Values)
        decreases |entries| - i, if stop then 0 else 1
      {
        ScanEndStep(entries, i);
        stop, onlineNodes := VisitIdentity(entries[i], onlineNodes, s);
        SummarizeVisit(rs, entries[i]);
        s := Visit(s, entries[i]);
        if !stop {
          DecodedStep(entries, i);
          rs := rs + Processed(entries[i]);
          i := i + 1;
        }
      }
      assert i == ScanEnd(entries);
    }

    /**
     * At the end of the scan the pools are valid, the sets, edges and pools
     * are what the records determine, and the collected entries are the
     * validator bag.
     */
    lemma ScanResult(entries: seq<Entry>, onlineNodes: seq<Address>, validators: seq<Address>)
      requires Scanning(Summarize(Records(entries)), onlineNodes)
      requires validators == ListedSeq(onlineNodes, nodesSet, Lists())
      ensures PoolsValid() && Scanned(entries)
      ensures multiset(validators) == ValidatorBag(Records(entries))
    {
      var rs := Records(entries);
      var lists := Lists();
      ListsHoldDelegators(lists, rs);
      ListedSeqIsValidatorBag(onlineNodes, rs, lists);
      assert lists.Keys == pools.Keys;
      forall p | p in pools
        ensures pools[p].Valid() && pools[p].list != []
        ensures multiset(pools[p].list) == multiset(DelegatorsOf(rs, p))
      {
        assert lists[p] == pools[p].list;
      }
    }

    /**
     * The scan and the gathering of the validator entries: the pools are
     * valid, the sets, edges and pools are what the scan of `entries`
     * determines, and the entries returned are the validator bag.
     */
    method ScanAndCollect(entries: seq<Entry>) returns (validators: seq<Address>)
      modifies this`onlineNodesSet, this`nodesSet, this`delegations, this`pools
      ensures PoolsValid() && Scanned(entries)
      ensures multiset(validators) == ValidatorBag(Records(entries))
      ensures fresh(pools.Values)
    {
      var onlineNodes := ScanIdentities(entries);
      validators := CollectValidators(onlineNodes);
      ScanResult(entries, onlineNodes, validators);
    }

    /**
     * `loadValidNodes`: clears the derived state, scans the identity state
     * once and rebuilds everything from it, then records the state version.
     */
    method LoadValidNodes(state: Snapshot)
      modifies this
      ensures Valid() && Reflects(state.entries)
      ensures height == state.version && god == old(god)
    {
      var validators := ScanAndCollect(state.entries);
      sortedValidators := SortValidNodes(validators);
      height := state.version;
    }

    /** `Load`: the initial rebuild. */
    method Load(state: Snapshot)
      modifies this
      ensures Valid() && Reflects(state.entries)
      ensures height == state.version && god == old(god)
    {
      LoadValidNodes(state);
    }

    /**
     * `RefreshIfUpdated`: rebuilds only for a block with the
     * identity-update flag; in every case the god address and the height
     * are then set from the arguments, so the height is the block's, not
     * the state version the rebuild wrote.
     */
    method RefreshIfUpdated(godAddress: Address, block: Block, state: Snapshot)
      requires Valid()
      modifies this
      ensures Valid()
      ensures block.identityUpdate ==> Reflects(state.entries)
      ensures !block.identityUpdate ==> View() == old(View()).(god := godAddress, height := block.height)
      ensures god == godAddress && height == block.height
    {
      if block.identityUpdate {
        LoadValidNodes(state);
      }
      god := godAddress;
      height := block.height;
    }

    /**
     * `Clone`: a new cache holding the same view. The pool objects are
     * shared, as `clonePools` shares them; a rebuild never changes an
     * existing pool.
     */
    method Clone() returns (c: ValidatorsCache)
      requires Valid()
      ensures fresh(c) && c.pools == pools
      ensures c.Valid() && c.View() == View()
    {
      c := new ValidatorsCache(god);
      c.height := height;
      c.sortedValidators := sortedValidators;
      c.nodesSet := nodesSet;
      c.onlineNodesSet := onlineNodesSet;
      c.pools := pools;
      c.delegations := delegations;
    }

    /** `replaceByDelegatee`: each address replaced by its delegatee, if it has one. */
    method ReplaceByDelegatee(s: set<Address>) returns (mapped: set<Address>)
      ensures mapped == Effective(delegations, s)
      ensures |mapped| <= |s|
    {
      mapped := {};
      var rest := s;
      while rest != {}
        invariant rest <= s
        invariant mapped == Effective(delegations, s - rest)
        decreases |rest|
      {
        var a :| a in rest;
        if a in delegations {
          mapped := mapped + {delegations[a]};
        } else {
          mapped := mapped + {a};
        }
        assert s - (rest - {a}) == (s - rest) + {a};
        rest := rest - {a};
      }
      assert s - rest == s;
      EffectiveNoLarger(delegations, s);
    }

    /**
     * `GetOnlineValidators`: the committee for one round and step. `perm`
     * is the permutation the seeded generator yields for the list length.
     */
    method GetOnlineValidators(perm: seq<nat>, limit: int) returns (r: Option<StepValidators>)
      requires (onlineNodesSet != {} && limit < |sortedValidators|)
                 ==> IsPermutation(perm, |sortedValidators|)
      ensures onlineNodesSet == {} ==> r == Some(StepValidators({god}, {god}, 1))
      ensures (onlineNodesSet != {} && |sortedValidators| == limit)
                ==> r == Some(CommitteeOf(delegations, Elements(sortedValidators)))
      ensures onlineNodesSet != {} && |sortedValidators| < limit ==> r == None
      ensures (onlineNodesSet != {} && |sortedValidators| > limit)
                ==> r == Some(CommitteeOf(delegations, Sample(sortedValidators, perm, limit)))
    {
      if |onlineNodesSet| == 0 {
        return Some(StepValidators({god}, {god}, 1));
      }
      var sampled: set<Address> := {};
      if |sortedValidators| == limit {
        for k := 0 to |sortedValidators|
          invariant sampled == Elements(sortedValidators[..k])
        {
          assert sortedValidators[..k + 1] == sortedValidators[..k] + [sortedValidators[k]];
          sampled := sampled + {sortedValidators[k]};
        }
        assert sortedValidators[..|sortedValidators|] == sortedValidators;
        var newSet := ReplaceByDelegatee(sampled);
        return Some(StepValidators(sampled, newSet, |newSet|));
      }
      if |sortedValidators| < limit {
        return None;
      }
      var i := 0;
      while i < limit
        invariant 0 <= i && (i <= limit || i == 0)
        invariant sampled == Sample(sortedValidators, perm, i)
      {
        sampled := sampled + {sortedValidators[perm[i]]};
        i := i + 1;
      }
      var newSet := ReplaceByDelegatee(sampled);
      return Some(StepValidators(sampled, newSet, |newSet|));
    }

    function NetworkSize(): int
      reads this
    {
      |nodesSet|
    }

    function OnlineSize(): int
      reads this
    {
      |onlineNodesSet|
    }

    function ValidatorsSize(): int
      reads this
    {
      |sortedValidators|
    }

    predicate Contains(addr: Address)
      reads this
    {
      addr in nodesSet
    }

    predicate IsOnlineIdentity(addr: Address)
      reads this
    {
      addr in onlineNodesSet
    }

    function GetAllOnlineValidators(): set<Address>
      reads this
    {
      onlineNodesSet
    }

    predicate IsPool(pool: Address)
      reads this
    {
      pool in pools
    }

    /** `Delegator`: the delegatee of `addr`, or the zero address. */
    function Delegator(addr: Address): Address
      reads this
    {
      if addr in delegations then delegations[addr] else ZeroAddress
    }

    function Height(): nat
      reads this
    {
      height
    }

    /**
     * `ForkCommitteeSize`: approved addresses, minus one per delegation
     * edge, plus one per pool whose delegatee is not approved.
     */
    method ForkCommitteeSize() returns (size: int)
      ensures size == |nodesSet| - |delegations| + |pools.Keys - nodesSet|
    {
      var outside := CountOutside(pools.Keys, nodesSet);
      size := NetworkSize() - |delegations| + outside;
    }

    /** `PoolSize`: the pool's delegators, plus its delegatee if approved; 0 without a pool. */
    function PoolSize(pool: Address): int
      reads this, pools.Values
    {
      if pool in pools then
        |pools[pool].list| + (if pool in nodesSet then 1 else 0)
      else 0
    }

    /**
     * `PoolSizeExceptNodes`: `PoolSize` minus one for each entry of
     * `exceptNodes` whose binary-search index in the pool list is above 0.
     */
    method PoolSizeExceptNodes(pool: Address, exceptNodes: seq<Address>) returns (size: int)
      requires Valid()
      ensures pool !in pools ==> size == 0
      ensures pool in pools ==> size == PoolSize(pool) - ExceptedCount(pools[pool].list, exceptNodes)
    {
      if pool !in pools {
        return 0;
      }
      var list := pools[pool];
      size := |list.list|;
      if pool in nodesSet {
        size := size + 1;
      }
      ghost var base := PoolSize(pool);
      for k := 0 to |exceptNodes|
        invariant size == base - ExceptedCount(list.list, exceptNodes[..k])
      {
        assert exceptNodes[..k + 1][..k] == exceptNodes[..k];
        var idx := list.Index(exceptNodes[k]);
        if idx > 0 {
          size := size - 1;
        }
      }
      assert exceptNodes[..|exceptNodes|] == exceptNodes;
    }

    /** The sub-identities of a pool in round-robin order: the delegatee if approved, then its delegators. */
    function Candidates(pool: Address): (c: seq<Address>)
      requires Valid() && pool in pools
      reads this, pools.Values
      ensures |c| == PoolSize(pool) && c != []
      ensures forall a :: a in c <==> (a == pool && Contains(pool)) || a in pools[pool].list
    {
      (if pool in nodesSet then [pool] else []) + pools[pool].list
    }

    /**
     * `FindSubIdentity`: the candidate at `nonce` and the next nonce; a
     * nonce at or past the candidate count (taken as a 32-bit value) starts
     * over at 0.
     */
    function FindSubIdentity(pool: Address, nonce: uint32): (r: (Address, uint32))
      requires Valid() && pool in pools
      reads this, pools.Values
      ensures r.0 in Candidates(pool)
      ensures 1 <= r.1 as int <= |Candidates(pool)|
    {
      var cands := Candidates(pool);
      var n := if nonce as int >= |cands| % 0x1_0000_0000 then 0 else nonce;
      (cands[n], n + 1)
    }

    /** The nonce after `calls` successive calls that start from nonce 0. */
    ghost function NonceAfter(pool: Address, calls: nat): uint32
      requires Valid() && pool in pools
      reads this, pools.Values
    {
      if calls == 0 then 0 else FindSubIdentity(pool, NonceAfter(pool, calls - 1)).1
    }

    /**
     * Round robin: starting from nonce 0, call `k` returns candidate `k` for
     * every `k` below the candidate count, so every sub-identity comes once;
     * the next call starts over with candidate 0 and nonce 1.
     */
    lemma {:induction false} SubIdentityRoundRobin(pool: Address, k: nat)
      requires Valid() && pool in pools
      requires |Candidates(pool)| < 0x1_0000_0000 && k < |Candidates(pool)|
      ensures NonceAfter(pool, k) as int == k
      ensures FindSubIdentity(pool, NonceAfter(pool, k)).0 == Candidates(pool)[k]
      ensures FindSubIdentity(pool, |Candidates(pool)| as uint32) == (Candidates(pool)[0], 1)
    {
      if k > 0 {
        SubIdentityRoundRobin(pool, k - 1);
      }
    }

    /**
     * After a rebuild the accessors answer from the records: `Contains` and
     * `IsOnlineIdentity` hold exactly for addresses with an approved,
     * respectively online, record; an address is in the validator list
     * exactly when some online address brings it; and the list is as long
     * as the validator bag, repetitions included.
     */
    lemma AccessorsAfterRebuild(entries: seq<Entry>, a: Address)
      requires Reflects(entries)
      ensures var rs := Records(entries);
              Contains(a) <==> exists k :: 0 <= k < |rs| && rs[k].addr == a && rs[k].id.approved
      ensures var rs := Records(entries);
              IsOnlineIdentity(a) <==> exists k :: 0 <= k < |rs| && rs[k].addr == a && rs[k].id.online
      ensures a in GetAllOnlineValidators() <==> IsOnlineIdentity(a)
      ensures a in sortedValidators <==> exists n :: n in OnlineOrder(Records(entries)) && Brings(Records(entries), n, a)
      ensures ValidatorsSize() == |ValidatorBag(Records(entries))|
      ensures NetworkSize() == |ApprovedSet(Records(entries))|
    {
      var rs := Records(entries);
      FlagMembers(rs, a);
      BagMembers(rs, OnlineOrder(rs), a);
      assert a in sortedValidators <==> a in multiset(sortedValidators);
      assert |sortedValidators| == |multiset(sortedValidators)|;
    }

    /**
     * After a rebuild whose records approve every delegator and give no
     * delegatee a delegatee of its own, the quantity `ForkCommitteeSize`
     * returns counts each voting unit once: every approved address that
     * does not delegate, and every pool.
     */
    lemma ForkCommitteeAfterRebuild(entries: seq<Entry>)
      requires Reflects(entries)
      requires DelegationMap(Records(entries)).Keys <= ApprovedSet(Records(entries))
      requires PoolOwners(Records(entries)) !! DelegationMap(Records(entries)).Keys
      ensures var rs := Records(entries);
              |nodesSet| - |delegations| + |pools.Keys - nodesSet|
              == |(ApprovedSet(rs) - DelegationMap(rs).Keys) + PoolOwners(rs)|
    {
      ForkCommitteeUnits(nodesSet, delegations, pools.Keys);
    }

    /**
     * After a rebuild a pool's size is its delegator count, plus one if
     * the delegatee is approved, and 0 for an address nobody delegates to.
     */
    lemma PoolSizeAfterRebuild(entries: seq<Entry>, p: Address)
      requires Reflects(entries)
      ensures var rs := Records(entries);
              PoolSize(p) == if DelegatorsOf(rs, p) == [] then 0
                             else |DelegatorsOf(rs, p)| + (if p in ApprovedSet(rs) then 1 else 0)
      ensures IsPool(p) <==> DelegatorsOf(Records(entries), p) != []
    {
      var rs := Records(entries);
      PoolOwnersHaveDelegators(rs, p);
      if p in pools {
        assert |pools[p].list| == |multiset(pools[p].list)| == |DelegatorsOf(rs, p)|;
      }
    }

    /**
     * After a rebuild, the delegatee `Delegator` reports has a pool and `a`
     * is in it; an address with no delegation edge gets the zero address.
     */
    lemma DelegatorAfterRebuild(entries: seq<Entry>, a: Address)
      requires Reflects(entries)
      ensures a in delegations ==>
                IsPool(Delegator(a)) && a in DelegatorsOf(Records(entries), Delegator(a))
      ensures a !in delegations ==> Delegator(a) == ZeroAddress
    {
      var rs := Records(entries);
      if a in delegations {
        DelegationsMatchPools(rs, a, delegations[a]);
        PoolOwnersHaveDelegators(rs, delegations[a]);
      }
    }
  }

  /**
   * Two caches rebuilt from the same identity state hold the same
   * validator list, pool lists, sets and delegation edges: everything a
   * committee or size query reads except the god address.
   */
  lemma RebuildDeterministic(a: ValidatorsCache, b: ValidatorsCache, entries: seq<Entry>)
    requires a.Valid() && a.Reflects(entries)
    requires b.Valid() && b.Reflects(entries)
    ensures a.sortedValidators == b.sortedValidators
    ensures a.View().pools == b.View().pools
    ensures a.delegations == b.delegations && a.nodesSet == b.nodesSet
    ensures a.onlineNodesSet == b.onlineNodesSet
  {
    SortedUnique(a.sortedValidators, b.sortedValidators, true);
    forall p | p in a.pools
      ensures a.pools[p].list == b.pools[p].list
    {
      SortedUnique(a.pools[p].list, b.pools[p].list, false);
    }
  }

  /**
   * A clone keeps the view it was taken with while the original is
   * rebuilt: the rebuild allocates new pools and changes no pool object
   * the clone shares.
   */
  method CloneSurvivesRebuild(v: ValidatorsCache, state: Snapshot) returns (c: ValidatorsCache)
    requires v.Valid()
    modifies v
    ensures fresh(c) && c.Valid() && c.View() == old(v.View())
    ensures v.Valid() && v.Reflects(state.entries)
  {
    c := v.Clone();
    v.Load(state);
  }
}
