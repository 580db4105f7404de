/**
 * The identity-state scan a rebuild consumes, and what the scan determines:
 * the online addresses in scan order, the approved set, the delegation
 * edges, each delegatee's delegators and the multiset of validator entries.
 */
module IdentityScan {
  import opened Common

  datatype Option<T> = None | Some(value: T)

  /** The fields of a decoded `state.ApprovedIdentity` that the cache reads. */
  datatype Identity = Identity(approved: bool, online: bool, delegatee: Option<Address>)

  /**
   * One call of the iteration callback. `key` is None for a nil key;
   * `value` is None for a value that fails to decode.
   */
  datatype Entry = Entry(key: Option<Address>, value: Option<Identity>)

  /** The identity-state database at rebuild time: its iteration order and its version. */
  datatype Snapshot = Snapshot(entries: seq<Entry>, version: nat)

  /** A decoded record, in the order the scan met it. */
  datatype Record = Record(addr: Address, id: Identity)

  /** Where the scan stops: the first nil key, or the end of the iteration. */
  function ScanEnd(entries: seq<Entry>): (n: nat)
    ensures n <= |entries|
    ensures forall k :: 0 <= k < n ==> entries[k].key.Some?
    ensures n < |entries| ==> entries[n].key.None?
  {
    if entries == [] then 0
    else if entries[0].key.None? then 0
    else 1 + ScanEnd(entries[1..])
  }

  /** What one callback contributes: its record if the key is present and the value decodes. */
  function Processed(e: Entry): seq<Record>
  {
    if e.key.Some? && e.value.Some? then [Record(e.key.value, e.value.value)] else []
  }

  function Decoded(visited: seq<Entry>): seq<Record>
  {
    if visited == [] then []
    else Decoded(visited[..|visited| - 1]) + Processed(visited[|visited| - 1])
  }

  /** The records a rebuild takes into account. */
  function Records(entries: seq<Entry>): seq<Record>
  {
    Decoded(entries[..ScanEnd(entries)])
  }

  lemma {:induction false} DecodedConcat(a: seq<Entry>, b: seq<Entry>)
    ensures Decoded(a + b) == Decoded(a) + Decoded(b)
    decreases |b|
  {
    if b == [] {
      assert a + b == a;
    } else {
      var b' := b[..|b| - 1];
      assert (a + b)[..|a + b| - 1] == a + b';
      DecodedConcat(a, b');
    }
  }

  /** Before the end of the scan, an entry with a key moves the scan on and a nil key is the end. */
  lemma ScanEndStep(entries: seq<Entry>, i: nat)
    requires i <= ScanEnd(entries) && i < |entries|
    ensures entries[i].key.Some? ==> i < ScanEnd(entries)
    ensures entries[i].key.None? ==> i == ScanEnd(entries)
  {
  }

  /** Visiting one more entry adds what that entry contributes. */
  lemma DecodedStep(entries: seq<Entry>, i: nat)
    requires i < |entries|
    ensures Decoded(entries[..i + 1]) == Decoded(entries[..i]) + Processed(entries[i])
  {
    assert entries[..i + 1][..i] == entries[..i];
  }

  /** Inserting an entry with a key moves the end of the scan by one if it lands before it. */
  lemma {:induction false} ScanEndAfterInsert(entries: seq<Entry>, k: nat, e: Entry)
    requires k <= |entries| && e.key.Some?
    ensures ScanEnd(entries[..k] + [e] + entries[k..])
            == if ScanEnd(entries) < k then ScanEnd(entries) else ScanEnd(entries) + 1
  {
    var with := entries[..k] + [e] + entries[k..];
    if k == 0 {
      assert with[1..] == entries;
    } else {
      assert with[0] == entries[0];
      if entries[0].key.Some? {
        assert with[1..] == entries[1..][..k - 1] + [e] + entries[1..][k - 1..];
        ScanEndAfterInsert(entries[1..], k - 1, e);
      }
    }
  }

  /**
   * A value that fails to decode is skipped and the scan goes on: wherever
   * such an entry is inserted, the rebuild sees the same records.
   */
  lemma DecodeFailureSkipped(entries: seq<Entry>, k: nat, addr: Address)
    requires k <= |entries|
    ensures Records(entries[..k] + [Entry(Some(addr), None)] + entries[k..]) == Records(entries)
  {
    var bad := Entry(Some(addr), None);
    var with := entries[..k] + [bad] + entries[k..];
    var n := ScanEnd(entries);
    ScanEndAfterInsert(entries, k, bad);
    if n < k {
      assert with[..n] == entries[..n];
    } else {
      assert with[..n + 1] == (entries[..k] + [bad]) + entries[k..n];
      assert entries[..n] == entries[..k] + entries[k..n];
      DecodedConcat(entries[..k] + [bad], entries[k..n]);
      DecodedConcat(entries[..k], [bad]);
      DecodedConcat(entries[..k], entries[k..n]);
      assert Decoded([bad]) == Decoded([]) + Processed(bad);
    }
  }

  /** A nil key ends the scan: nothing after it reaches the rebuild. */
  lemma NilKeyStopsScan(before: seq<Entry>, v: Option<Identity>, after: seq<Entry>)
    ensures Records(before + [Entry(None, v)] + after) == Records(before)
  {
    var all := before + [Entry(None, v)] + after;
    var n := ScanEnd(before);
    assert forall j :: 0 <= j < |before| ==> all[j] == before[j];
    assert all[|before|].key.None?;
    assert ScanEnd(all) == n;
    assert all[..n] == before[..n];
  }

  /** The online addresses, in scan order. */
  function OnlineOrder(rs: seq<Record>): seq<Address>
  {
    if rs == [] then []
    else
      var r := rs[|rs| - 1];
      OnlineOrder(rs[..|rs| - 1]) + (if r.id.online then [r.addr] else [])
  }

  function ApprovedSet(rs: seq<Record>): set<Address>
  {
    if rs == [] then {}
    else
      var r := rs[|rs| - 1];
      ApprovedSet(rs[..|rs| - 1]) + (if r.id.approved then {r.addr} else {})
  }

  /** Delegator to delegatee; a later record for the same address overwrites. */
  function DelegationMap(rs: seq<Record>): map<Address, Address>
  {
    if rs == [] then map[]
    else
      var r := rs[|rs| - 1];
      var m := DelegationMap(rs[..|rs| - 1]);
      if r.id.delegatee.Some? then m[r.addr := r.id.delegatee.value] else m
  }

  /** The addresses that name `p` as their delegatee, in scan order. */
  function DelegatorsOf(rs: seq<Record>, p: Address): seq<Address>
  {
    if rs == [] then []
    else
      var r := rs[|rs| - 1];
      DelegatorsOf(rs[..|rs| - 1], p) + (if r.id.delegatee == Some(p) then [r.addr] else [])
  }

  /** The delegatees named by some record: the pools a rebuild creates. */
  function PoolOwners(rs: seq<Record>): set<Address>
  {
    if rs == [] then {}
    else
      var r := rs[|rs| - 1];
      PoolOwners(rs[..|rs| - 1]) + (if r.id.delegatee.Some? then {r.id.delegatee.value} else {})
  }

  /** One more record extends the online list and the approved set by that record alone. */
  lemma RecordStep(rs: seq<Record>, r: Record)
    ensures OnlineOrder(rs + [r]) == OnlineOrder(rs) + (if r.id.online then [r.addr] else [])
    ensures ApprovedSet(rs + [r]) == ApprovedSet(rs) + (if r.id.approved then {r.addr} else {})
  {
  }

  /** One more record changes the delegation edges and pools only through its own delegatee. */
  lemma DelegationStep(rs: seq<Record>, r: Record)
    ensures DelegationMap(rs + [r])
            == if r.id.delegatee.Some? then DelegationMap(rs)[r.addr := r.id.delegatee.value]
               else DelegationMap(rs)
    ensures PoolOwners(rs + [r])
            == PoolOwners(rs) + (if r.id.delegatee.Some? then {r.id.delegatee.value} else {})
    ensures forall p :: DelegatorsOf(rs + [r], p)
                        == DelegatorsOf(rs, p) + (if r.id.delegatee == Some(p) then [r.addr] else [])
  {
  }

  /**
   * What a scan has gathered after some records: the online addresses in
   * order, the approved set, the delegation edges and each delegatee's
   * delegators in scan order.
   */
  datatype Summary = Summary(
    online: seq<Address>,
    approved: set<Address>,
    delegations: map<Address, Address>,
    delegators: map<Address, seq<Address>>)

  /** The effect of one decoded record on what the scan has gathered. */
  function Absorb(s: Summary, r: Record): (t: Summary)
    ensures r.id.delegatee.None? ==> t.delegators == s.delegators && t.delegations == s.delegations
  {
    Summary(
      s.online + (if r.id.online then [r.addr] else []),
      s.approved + (if r.id.approved then {r.addr} else {}),
      if r.id.delegatee.Some? then s.delegations[r.addr := r.id.delegatee.value] else s.delegations,
      if r.id.delegatee.Some? then
        var d := r.id.delegatee.value;
        s.delegators[d := (if d in s.delegators then s.delegators[d] else []) + [r.addr]]
      else s.delegators)
  }

  /** The effect of one callback: only a present key with a decodable value counts. */
  function Visit(s: Summary, e: Entry): Summary
  {
    if e.key.Some? && e.value.Some? then Absorb(s, Record(e.key.value, e.value.value)) else s
  }

  /** The summary the per-field definitions give for `rs`. */
  ghost function Summarize(rs: seq<Record>): Summary
  {
    Summary(OnlineOrder(rs), ApprovedSet(rs), DelegationMap(rs),
            map p | p in PoolOwners(rs) :: DelegatorsOf(rs, p))
  }

  /** The empty scan gathers nothing. */
  lemma SummarizeEmpty()
    ensures Summarize([]) == Summary([], {}, map[], map[])
  {
  }

  /** Taking in one more record is `Absorb`: the per-field definitions and the callback agree. */
  lemma SummarizeStep(rs: seq<Record>, r: Record)
    ensures Summarize(rs + [r]) == Absorb(Summarize(rs), r)
  {
    RecordStep(rs, r);
    DelegationStep(rs, r);
    var before := Summarize(rs).delegators;
    var after := Summarize(rs + [r]).delegators;
    var expected := Absorb(Summarize(rs), r).delegators;
    assert after.Keys == expected.Keys;
    forall p | p in after
      ensures after[p] == expected[p]
    {
      PoolOwnersHaveDelegators(rs, p);
    }
  }

  /** One callback is `Visit`. */
  lemma SummarizeVisit(rs: seq<Record>, e: Entry)
    ensures Summarize(rs + Processed(e)) == Visit(Summarize(rs), e)
  {
    if e.key.Some? && e.value.Some? {
      SummarizeStep(rs, Record(e.key.value, e.value.value));
    } else {
      assert rs + Processed(e) == rs;
    }
  }

  /** What online address `n` adds to the validator list: itself if approved, then its pool. */
  function Contribution(rs: seq<Record>, n: Address): multiset<Address>
  {
    (if n in ApprovedSet(rs) then multiset{n} else multiset{}) + multiset(DelegatorsOf(rs, n))
  }

  function BagOver(rs: seq<Record>, ns: seq<Address>): multiset<Address>
  {
    if ns == [] then multiset{}
    else BagOver(rs, ns[..|ns| - 1]) + Contribution(rs, ns[|ns| - 1])
  }

  /** One more online address adds its contribution. */
  lemma BagStep(rs: seq<Record>, ns: seq<Address>, j: nat)
    requires j < |ns|
    ensures BagOver(rs, ns[..j + 1]) == BagOver(rs, ns[..j]) + Contribution(rs, ns[j])
  {
    assert ns[..j + 1][..j] == ns[..j];
  }

  /** The validator entries, with repetitions, before sorting. */
  function ValidatorBag(rs: seq<Record>): multiset<Address>
  {
    BagOver(rs, OnlineOrder(rs))
  }

  /** An address is approved exactly when some record for it carries the approved flag. */
  lemma {:induction false} ApprovedMembers(rs: seq<Record>, a: Address)
    ensures a in ApprovedSet(rs) <==> exists k :: 0 <= k < |rs| && rs[k].addr == a && rs[k].id.approved
  {
    if rs != [] {
      var rs' := rs[..|rs| - 1];
      ApprovedMembers(rs', a);
      assert forall k :: 0 <= k < |rs'| ==> rs'[k] == rs[k];
    }
  }

  /** An address is online exactly when some record for it carries the online flag. */
  lemma {:induction false} OnlineMembers(rs: seq<Record>, a: Address)
    ensures a in OnlineOrder(rs) <==> exists k :: 0 <= k < |rs| && rs[k].addr == a && rs[k].id.online
  {
    if rs != [] {
      var rs' := rs[..|rs| - 1];
      OnlineMembers(rs', a);
      assert forall k :: 0 <= k < |rs'| ==> rs'[k] == rs[k];
    }
  }

  /**
   * An address is approved, or online, exactly when some record for it
   * carries that flag.
   */
  lemma FlagMembers(rs: seq<Record>, a: Address)
    ensures a in ApprovedSet(rs) <==> exists k :: 0 <= k < |rs| && rs[k].addr == a && rs[k].id.approved
    ensures a in OnlineOrder(rs) <==> exists k :: 0 <= k < |rs| && rs[k].addr == a && rs[k].id.online
  {
    ApprovedMembers(rs, a);
    OnlineMembers(rs, a);
  }

  /** A pool exists exactly for the addresses that have at least one delegator. */
  lemma {:induction false} PoolOwnersHaveDelegators(rs: seq<Record>, p: Address)
    ensures p in PoolOwners(rs) <==> DelegatorsOf(rs, p) != []
  {
    if rs != [] {
      PoolOwnersHaveDelegators(rs[..|rs| - 1], p);
    }
  }

  /**
   * Every delegation edge points into the delegatee's pool; when the scan
   * meets each address once, the pools hold exactly the delegation edges.
   */
  lemma {:induction false} DelegationsMatchPools(rs: seq<Record>, a: Address, p: Address)
    ensures a in DelegationMap(rs) && DelegationMap(rs)[a] == p ==> a in DelegatorsOf(rs, p)
    ensures (Distinct(Addresses(rs)) && a in DelegatorsOf(rs, p))
              ==> a in DelegationMap(rs) && DelegationMap(rs)[a] == p
  {
    if rs != [] {
      var rs' := rs[..|rs| - 1];
      DelegationsMatchPools(rs', a, p);
      assert Addresses(rs') == Addresses(rs)[..|rs| - 1];
      if Distinct(Addresses(rs)) && a in DelegatorsOf(rs', p) {
        AddressOfDelegator(rs', a, p);
        assert rs[|rs| - 1].addr == Addresses(rs)[|rs| - 1];
      }
    }
  }

  function Addresses(rs: seq<Record>): (s: seq<Address>)
    ensures |s| == |rs| && forall k :: 0 <= k < |rs| ==> s[k] == rs[k].addr
  {
    seq(|rs|, k requires 0 <= k < |rs| => rs[k].addr)
  }

  /** A delegator of `p` is the address of some record. */
  lemma {:induction false} AddressOfDelegator(rs: seq<Record>, a: Address, p: Address)
    requires a in DelegatorsOf(rs, p)
    ensures a in Addresses(rs)
  {
    var rs' := rs[..|rs| - 1];
    if a in DelegatorsOf(rs', p) {
      AddressOfDelegator(rs', a, p);
      assert Addresses(rs') == Addresses(rs)[..|rs| - 1];
    } else {
      assert Addresses(rs)[|rs| - 1] == a;
    }
  }

  /** Online address `n` brings `a` into the validator list: as itself if approved, or as a delegator. */
  predicate Brings(rs: seq<Record>, n: Address, a: Address)
  {
    (n == a && a in ApprovedSet(rs)) || a in DelegatorsOf(rs, n)
  }

  /** What `n` contributes holds `a` exactly when `n` brings `a`. */
  lemma ContributionMembers(rs: seq<Record>, n: Address, a: Address)
    ensures a in Contribution(rs, n) <==> Brings(rs, n, a)
  {
  }

  /** Some address of `ns + [n]` brings `a` exactly when one of `ns` does or `n` does. */
  lemma BringsStep(rs: seq<Record>, ns: seq<Address>, n: Address, a: Address)
    ensures (exists m :: m in ns + [n] && Brings(rs, m, a))
            <==> (exists m :: m in ns && Brings(rs, m, a)) || Brings(rs, n, a)
  {
  }

  /**
   * An address is a validator entry exactly when some online address
   * brings it: is that address and approved, or has it as a delegator.
   */
  lemma {:induction false} BagMembers(rs: seq<Record>, ns: seq<Address>, a: Address)
    ensures a in BagOver(rs, ns) <==> exists n :: n in ns && Brings(rs, n, a)
  {
    if ns != [] {
      var ns' := ns[..|ns| - 1];
      var n := ns[|ns| - 1];
      BagMembers(rs, ns', a);
      BringsStep(rs, ns', n, a);
      assert ns == ns' + [n];
      ContributionMembers(rs, n, a);
    }
  }

  /** A record that names `p` as its delegatee puts its address among `p`'s delegators. */
  lemma {:induction false} DelegatorOfRecord(rs: seq<Record>, k: nat, p: Address)
    requires k < |rs| && rs[k].id.delegatee == Some(p)
    ensures rs[k].addr in DelegatorsOf(rs, p)
  {
    if k < |rs| - 1 {
      var rs' := rs[..|rs| - 1];
      assert rs'[k] == rs[k];
      DelegatorOfRecord(rs', k, p);
    }
  }

  /** The validator entries count `x` at least as often as one online address contributes it. */
  lemma {:induction false} BagCountsOne(rs: seq<Record>, ns: seq<Address>, i: nat, x: Address)
    requires i < |ns|
    ensures BagOver(rs, ns)[x] >= Contribution(rs, ns[i])[x]
  {
    var ns' := ns[..|ns| - 1];
    if i < |ns| - 1 {
      assert ns'[i] == ns[i];
      BagCountsOne(rs, ns', i, x);
    }
  }

  /** Two positions of the online order contribute `x` separately. */
  lemma {:induction false} BagCountsTwo(rs: seq<Record>, ns: seq<Address>, i: nat, j: nat, x: Address)
    requires i < j < |ns|
    ensures BagOver(rs, ns)[x] >= Contribution(rs, ns[i])[x] + Contribution(rs, ns[j])[x]
  {
    var ns' := ns[..|ns| - 1];
    assert ns'[i] == ns[i];
    if j == |ns| - 1 {
      BagCountsOne(rs, ns', i, x);
    } else {
      assert ns'[j] == ns[j];
      BagCountsTwo(rs, ns', i, j, x);
    }
  }

  /**
   * The validator list can hold an address twice: an online, approved
   * delegator `a` of an online delegatee `b` is added once for itself and
   * once from `b`'s pool, in any scan that has records for both.
   */
  lemma DuplicateValidatorEntry(rs: seq<Record>, ka: nat, kb: nat, a: Address, b: Address)
    requires a != b
    requires ka < |rs| && rs[ka].addr == a && rs[ka].id.approved && rs[ka].id.online
    requires rs[ka].id.delegatee == Some(b)
    requires kb < |rs| && rs[kb].addr == b && rs[kb].id.online
    ensures ValidatorBag(rs)[a] >= 2
  {
    var ns := OnlineOrder(rs);
    FlagMembers(rs, a);
    FlagMembers(rs, b);
    DelegatorOfRecord(rs, ka, b);
    var i :| 0 <= i < |ns| && ns[i] == a;
    var j :| 0 <= j < |ns| && ns[j] == b;
    assert Contribution(rs, a)[a] >= 1;
    assert Contribution(rs, b)[a] >= 1 by {
      assert a in multiset(DelegatorsOf(rs, b));
    }
    if i < j {
      BagCountsTwo(rs, ns, i, j, a);
    } else {
      BagCountsTwo(rs, ns, j, i, a);
    }
  }
}
