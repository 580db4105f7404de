# Validator-set cache

A Dafny model of the validator-set cache of the consensus layer
(`core/validators/validators.go`).

The cache is rebuilt from one scan of the identity state. The rebuild produces:

- the set of online identities;
- the set of approved identities;
- the delegation edges (delegator to delegatee);
- one *pool* per delegatee: an object holding that delegatee's delegators in ascending byte order;
- the validator list, sorted in non-increasing byte order.

The rebuild builds the validator list by walking the online identities in scan order. Each one adds itself if it is approved, then every delegator in its pool.

Committees are drawn from that list. When the list is exactly as long as the limit, the committee is the whole list. When the list is longer, it is the first `limit` positions of a permutation. Either way, each sampled delegator is then replaced by its delegatee. Further queries report:

- sizes: network, online, validators, fork committee and pool sizes;
- membership;
- delegatees;
- round-robin sub-identities of a pool.

The model has five modules:

- `Common`: bytes, 20-byte addresses, `bytes.Compare` and sortedness, ascending and descending.
- `SortedAddressList`: the `sortedAddresses` pool object. It is a class with `Add` and `Index`, and both use `sort.Search` as a binary-search method.
- `IdentityScan`: the identity state as a sequence of iteration callbacks (`Entry`). It also holds the functions that say what a rebuild must produce from a scan:
  - `OnlineOrder`, `ApprovedSet`, `DelegationMap`, `DelegatorsOf` and `PoolOwners`;
  - `ValidatorBag`, the multiset of validator entries.
- `Committee`: `StepValidators`, delegation substitution and positional sampling.
- `Validators`: the `ValidatorsCache` class.
  - Its fields are updated in place.
  - Its pools are a map to `SortedAddresses` objects, as `ValidatorsCache.pools` is in validators.go.
  - The rebuild is imperative: a scan loop, a collect loop and the sort. Each step is proved against the scan functions.

### Behaviour worth noting

- A record that fails to decode is skipped and the scan goes on: the
  callback returns `false`, which continues the iteration
  (validators.go:164-166); only a nil key stops it (validators.go:157-159).
  `IdentityScan.DecodeFailureSkipped` and `IdentityScan.NilKeyStopsScan`
  state this.
- The validator list can hold an address twice: an online, approved
  delegator of an online delegatee is appended once for itself and once
  from its delegatee's pool (validators.go:190-196).
  `IdentityScan.DuplicateValidatorEntry` proves this for every scan with
  records for both, at least twice since repeated records add more copies.
- `RefreshIfUpdated` sets the height to the block height after a rebuild,
  replacing the state version the rebuild recorded (validators.go:143-144).
- `Clone` copies the pool map but shares the pool objects (`clonePools`,
  validators.go:278-284). `Validators.CloneSurvivesRebuild` proves the
  sharing harmless: a rebuild only allocates new pools and never changes
  an existing one.

## Model

| member | source | states |
|---|---|---|
| Common.CompareZero | core/validators/validators.go:329 | `bytes.Compare` reports 0 exactly for equal byte sequences |
| Common.SortedUnique | core/validators/validators.go:271-276 | two sorted arrangements of the same multiset are equal, so a stable or unstable sort gives one list |
| SortedAddressList.SearchNotBelow | core/validators/validators.go:314-316 | the binary search returns the first position whose element is not below the address: everything before is below it, everything from there on is not |
| SortedAddressList.FirstIndex | core/validators/validators.go:322-333 | reference lookup: -1 exactly when the address is absent, else the position of its first occurrence |
| SortedAddressList.InsertAtSearchPosition | core/validators/validators.go:317-319 | inserting at the searched position keeps the list ascending |
| SortedAddressList.SortedAddresses.constructor | core/validators/validators.go:175 | a new pool list is empty and ascending |
| SortedAddressList.SortedAddresses.Add | core/validators/validators.go:313-320 | the list stays ascending, grows by one and gains exactly one more copy of the address, even one already present |
| SortedAddressList.SortedAddresses.Index | core/validators/validators.go:322-333 | the binary search returns the first index of the address, or -1 when absent |
| SortedAddressList.ExceptedCount | core/validators/validators.go:241-245 | at most one subtraction per excluded entry |
| SortedAddressList.ExceptedCountConcat | core/validators/validators.go:241-245 | an excluded entry is subtracted exactly when it is in the pool and is not the pool's smallest address; repeated entries are subtracted once each |
| IdentityScan.ScanEnd | core/validators/validators.go:156-159 | the scan runs over entries with keys and ends at the first nil key, or at the end |
| IdentityScan.DecodeFailureSkipped | core/validators/validators.go:163-166 | inserting an undecodable entry anywhere leaves the records the rebuild sees unchanged |
| IdentityScan.NilKeyStopsScan | core/validators/validators.go:157-159 | nothing after a nil key reaches the rebuild |
| IdentityScan.RecordStep | core/validators/validators.go:168-171 | one record extends the online order and the approved set by itself alone, as its flags say |
| IdentityScan.DelegationStep | core/validators/validators.go:172-181 | one record with a delegatee sets its own delegation edge, adds its delegatee to the pool owners and joins only that delegatee's delegators |
| IdentityScan.Absorb | core/validators/validators.go:168-184 | a record without a delegatee changes neither the edges nor the pools |
| IdentityScan.SummarizeVisit | core/validators/validators.go:156-187 | one callback has the effect the scan functions give for one more entry |
| IdentityScan.ApprovedMembers | core/validators/validators.go:182-184 | an address is approved exactly when some record for it has the approved flag |
| IdentityScan.OnlineMembers | core/validators/validators.go:168-171 | an address is in the online order exactly when some record for it has the online flag |
| IdentityScan.FlagMembers | core/validators/validators.go:168-184 | an address is approved or online exactly when some record for it carries that flag |
| IdentityScan.PoolOwnersHaveDelegators | core/validators/validators.go:172-178 | a pool exists exactly for the addresses that have at least one delegator |
| IdentityScan.DelegationsMatchPools | core/validators/validators.go:172-180 | every delegation edge points into its delegatee's pool; when each address appears once, the pools hold exactly the edges |
| IdentityScan.ContributionMembers | core/validators/validators.go:190-196 | an online address contributes an entry exactly when it is that address and approved, or the entry is one of its delegators |
| IdentityScan.BagMembers | core/validators/validators.go:189-197 | an address is among the validator entries exactly when some online address brings it |
| IdentityScan.DelegatorOfRecord | core/validators/validators.go:172-179 | a record naming a delegatee puts its address in that delegatee's delegators |
| IdentityScan.DuplicateValidatorEntry | core/validators/validators.go:189-197 | in any scan with an online, approved record for `a` delegating to `b` and an online record for `b`, `a` appears at least twice in the validator entries |
| Committee.EffectiveNoLarger | core/validators/validators.go:53-64 | delegation substitution never yields more addresses than it was given |
| Committee.EffectiveWithoutDelegators | core/validators/validators.go:53-64 | substitution changes nothing when no member of the set has a delegation edge |
| Committee.CommitteeContains | core/validators/validators.go:300-302 | a committee contains an address exactly when it was sampled and delegates to no one, or a sampled delegator names it; its size is at most the sample's |
| Committee.SampleMembers | core/validators/validators.go:89-93 | the sample holds exactly the addresses at the first `limit` permuted positions, all from the validator list |
| Committee.SampleSize | core/validators/validators.go:89-93 | a sample of `limit` positions has at most `limit` addresses, and exactly `limit` when the list has no repeated entry |
| Validators.InsertDescending | core/validators/validators.go:271-276 | inserting into a non-increasing list keeps it non-increasing and adds exactly that element |
| Validators.SortValidNodes | core/validators/validators.go:271-276 | the result is non-increasing in byte order and a permutation of the input |
| Validators.ForkCommitteeUnits | core/validators/validators.go:102-113 | when every delegator is approved and no delegatee delegates, the fork-committee formula counts non-delegating approved addresses plus pools, each once |
| Validators.ListsStep | core/validators/validators.go:172-180 | adding a delegator to its delegatee's ascending list keeps the pool lists equal, as multisets, to the delegators gathered so far |
| Validators.ListsHoldDelegators | core/validators/validators.go:172-180 | after the scan the pools are exactly the delegatees, and each holds exactly its delegators |
| Validators.ListedSeqIsValidatorBag | core/validators/validators.go:189-197 | the entries listed from the cache's own sets and pools, once these reflect the scan, are the validator multiset of the records |
| Validators.CountOutside | core/validators/validators.go:107-111 | the loop counts exactly the pools whose delegatee is not approved |
| Validators.ValidatorsCache.constructor | core/validators/validators.go:34-44 | a new cache is empty, with the given god address and height 0 |
| Validators.ValidatorsCache.CollectValidators | core/validators/validators.go:189-197 | the collected sequence is exactly, per online address in scan order, the address if approved followed by its pool list, with nothing deduplicated |
| Validators.ValidatorsCache.JoinPool | core/validators/validators.go:173-178 | the address joins the delegatee's pool, which is created on first use; no other pool changes, and the only new pool objects are freshly allocated |
| Validators.ValidatorsCache.JoinDelegateePool | core/validators/validators.go:172-179 | the pools keep matching the gathered delegators after a record with a delegatee |
| Validators.ValidatorsCache.Delegate | core/validators/validators.go:172-181 | the pools and the delegation edges move as one record says |
| Validators.ValidatorsCache.AddRecord | core/validators/validators.go:168-184 | the online list and set, the approved set, the edges and the pools move as one decoded record says |
| Validators.ValidatorsCache.VisitIdentity | core/validators/validators.go:156-187 | the callback stops exactly on a nil key, skips an undecodable value and otherwise takes the record in |
| Validators.ValidatorsCache.ClearDerived | core/validators/validators.go:150-153 | the sets, edges and pools start empty |
| Validators.ValidatorsCache.ScanIdentities | core/validators/validators.go:147-187 | after the loop, the cache's sets, edges and pools are what the scan functions give for the records before the first nil key |
| Validators.ValidatorsCache.ScanResult | core/validators/validators.go:189-199 | after the scan every pool is ascending and non-empty, and the collected entries are the validator bag |
| Validators.ValidatorsCache.ScanAndCollect | core/validators/validators.go:147-197 | the scan and the collect loop leave valid pools, the scanned state, and the validator bag as the collected entries |
| Validators.ValidatorsCache.LoadValidNodes | core/validators/validators.go:147-201 | a rebuild leaves every field determined by the identity state: the sets, the edges, the pools and a non-increasing validator list holding the validator bag; the height is the state version |
| Validators.ValidatorsCache.Load | core/validators/validators.go:46-51 | the initial load is one rebuild |
| Validators.ValidatorsCache.RefreshIfUpdated | core/validators/validators.go:135-145 | only a block with the identity-update flag rebuilds; otherwise nothing but the god address and the height change; the height is the block's in both cases |
| Validators.ValidatorsCache.Clone | core/validators/validators.go:203-218 | the clone is a new cache with the same view, sharing the pool objects |
| Validators.ValidatorsCache.ReplaceByDelegatee | core/validators/validators.go:53-64 | the result is the delegation substitution of the set, no larger than it |
| Validators.ValidatorsCache.GetOnlineValidators | core/validators/validators.go:66-96 | with nobody online the committee is the god address alone; if the list is exactly as long as the limit, the committee is built from the whole list; if shorter, there is none; if longer, it is built from the first `limit` permuted positions |
| Validators.ValidatorsCache.ForkCommitteeSize | core/validators/validators.go:102-113 | approved count minus edge count plus the number of pools whose delegatee is not approved |
| Validators.ValidatorsCache.PoolSizeExceptNodes | core/validators/validators.go:235-249 | 0 without a pool; otherwise the pool size minus one per excluded entry found past the pool's first position |
| Validators.ValidatorsCache.Candidates | core/validators/validators.go:256-260 | the candidates are as many as the pool size, never empty, and are exactly the approved delegatee and its delegators |
| Validators.ValidatorsCache.FindSubIdentity | core/validators/validators.go:256-265 | the returned sub-identity is a candidate, and the next nonce is between 1 and the candidate count |
| Validators.ValidatorsCache.SubIdentityRoundRobin | core/validators/validators.go:256-265 | starting from nonce 0, call k returns candidate k, so each sub-identity comes once per round; a nonce at the count wraps to candidate 0 |
| Validators.ValidatorsCache.ForkCommitteeAfterRebuild | core/validators/validators.go:102-113 | after a rebuild whose delegators are all approved and whose delegatees do not delegate, the fork-committee size counts each non-delegating approved address and each pool once |
| Validators.ValidatorsCache.PoolSizeAfterRebuild | core/validators/validators.go:224-233 | after a rebuild the pool size is the delegator count, plus one if the delegatee is approved; an address nobody delegates to has size 0 and no pool |
| Validators.ValidatorsCache.DelegatorAfterRebuild | core/validators/validators.go:267-269 | after a rebuild, a delegator's reported delegatee has a pool containing it; an address without an edge gets the zero address |
| Validators.ValidatorsCache.AccessorsAfterRebuild | core/validators/validators.go:98-133 | after a rebuild, `Contains` and `IsOnlineIdentity` hold exactly for addresses with an approved, respectively online, record; membership in the validator list is `BagMembers`; the sizes are those of the approved set and of the validator bag |
| Validators.RebuildDeterministic | core/validators/validators.go:147-201 | two caches rebuilt from the same identity state hold the same validator list, pool lists, sets and edges |
| Validators.CloneSurvivesRebuild | core/validators/validators.go:203-218 | a clone keeps its view while the original is rebuilt |

## Left out

- The seeded generator: `GetOnlineValidators` takes as an input the permutation that `rand.Perm` would return. The hash of seed, round and step that seeds it is not modelled.
- `StepValidators.VotesCountSubtrahend` is not modelled: it rounds in floating point.
- The mutex and the logger are not modelled: the model has no concurrency.
- The identity state is given as its sequence of iteration callbacks (`IdentityScan.Entry`). `IterateIdentities` and `FromBytes` are not part of this model, and neither is the key's prefix byte (`SetBytes(key[1:])`). A nil key becomes a missing key, and an undecodable value becomes a missing value.
- The `delegators` slice built during the scan is never read, so it is not modelled.
- `mapset.Set` is modelled as a Dafny `set`.
- `height`: the model uses `nat`, not `uint64`. Block heights and state versions never come near 2^64.
- `loadValidNodes` updates fields inside one record in this order: online, pool, edge, approved. `Validators.ValidatorsCache.AddRecord` updates the online and approved sets first, then the pool and the edge. These updates touch disjoint fields, so the final state is the same.
- The accessors `NetworkSize`, `OnlineSize`, `ValidatorsSize`, `Contains`, `IsOnlineIdentity`, `GetAllOnlineValidators`, `IsPool`, `Delegator`, `Height` and `StepValidators.Contains` are field reads, and `PoolSize` is a one-line formula over the pool and the approved set. Their properties are stated by `AccessorsAfterRebuild`, `PoolSizeAfterRebuild`, `DelegatorAfterRebuild` and `CommitteeContains`.
- `Validators.ValidatorsCache.FindSubIdentity`: it requires an existing pool, because `v.pools[pool].list` in validators.go dereferences a nil pointer for a missing pool and fails.
