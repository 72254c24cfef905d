/** The chain store of one table: an in-memory map from chain name to the chain
    the store created or found in the kernel's listing, kept beside the netlink
    connection that carries the requests to the kernel.

    The connection is not modelled: the requests the store makes on it are
    recorded in order (`Call`), and what it answers is given to each operation as
    a parameter — the kernel's chain listing, the outcome of a flush, the outcome
    of syncing the rules of a chain. */
module NfChains {
  import opened Wrappers
  import opened Nftables

  /** How long DeleteImm keeps retrying a busy chain, and how often */
  const ChainDeleteTimeoutMs: nat := 60000
  const ChainDeleteIntervalMs: nat := ChainDeleteTimeoutMs / 10

  /** The flushes that fit before the deadline: one at once and one at every tick
      before the timer fires */
  const MaxDeleteAttempts: nat := ChainDeleteTimeoutMs / ChainDeleteIntervalMs

  datatype Error =
    | TypeNotSet                                    // a base chain needs a type
    | AlreadyExists(chain: string, table: string)   // a different chain holds the name
    | DoesNotExist(chain: string)
    | Transport(cause: TransportError)
    | MissingChainSync(table: string, syncError: Error) // Get could not absorb a listed chain

  /** The attributes that make a chain a base chain; `device` is carried but not used */
  datatype ChainAttributes = ChainAttributes(
    chainType: string,
    hook: Option<Ref>,
    priority: Option<Ref>,
    device: string,
    policy: Option<ChainPolicy>)

  /** The rules interface the store builds for a chain of a table */
  datatype Rules = Rules(table: Table, chain: string)

  /** One stored chain; the chain and its rules interface are pointers in the
      source and may in principle be nil */
  datatype ChainEntry = ChainEntry(baseChain: bool, chain: Option<Chain>, rules: Option<Rules>)

  /** A request the store makes on the connection */
  datatype Call = AddChain(chain: Chain) | DelChain(target: Option<Chain>) | Flush

  /** The store's map and the requests it stages after one operation */
  datatype Step = Step(chains: map<string, ChainEntry>, staged: seq<Call>, err: Option<Error>)

  datatype SyncResult = SyncResult(chains: map<string, ChainEntry>, err: Option<Error>)

  /** How a delete with retries ended: the flushes made, and the last one's error */
  datatype Attempts = Attempts(count: nat, err: Option<TransportError>)

  /** An entry as the store itself builds it for the key `name` */
  predicate WellFormed(t: Table, name: string, e: ChainEntry) {
    && e.chain.Some?
    && e.chain.value.name == name
    && e.chain.value.table == t
    && e.rules == Some(Rules(t, name))
  }

  predicate Consistent(t: Table, m: map<string, ChainEntry>) {
    forall name | name in m :: WellFormed(t, name, m[name])
  }

  // ---------------------------------------------------------------------------
  // Creating a chain

  /** A base chain must say its type; nothing else is checked */
  function Validate(a: ChainAttributes): (err: Option<Error>)
    ensures err.None? <==> a.chainType != ""
    ensures err.Some? ==> err.value == TypeNotSet
  {
    if a.chainType == "" then Some(TypeNotSet) else None
  }

  /** Whether the stored chain `ch` is the one a request with `attributes` asks for */
  function IsEqualChain(ch: ChainEntry, attributes: Option<ChainAttributes>): (equal: bool)
    ensures ch.chain.None? || ch.rules.None? ==> !equal
    ensures ch.baseChain && attributes.None? ==> !equal
    ensures !ch.baseChain && attributes.Some? ==> !equal
    ensures attributes.Some? && ch.chain.Some? ==>
      var a, c := attributes.value, ch.chain.value;
      (a.hook != c.hooknum || a.chainType != c.chainType || a.priority != c.priority) ==> !equal
    ensures attributes.Some? && ch.chain.Some? && attributes.value.policy.Some? ==>
      ch.chain.value.policy != attributes.value.policy ==> !equal
  {
    if ch.chain.None? then false
    else if ch.rules.None? then false
    else if ch.baseChain && attributes.None? then false
    else if !ch.baseChain && attributes.Some? then false
    else if attributes.Some? then
      var a, c := attributes.value, ch.chain.value;
      if a.hook != c.hooknum || a.chainType != c.chainType || a.priority != c.priority then false
      else if a.policy.Some? then c.policy.Some? && a.policy.value == c.policy.value
      else true
    else true
  }

  /** The chain staged for a new name: a base chain when attributes are given,
      its policy defaulting to accept, otherwise a regular chain */
  function NewChain(t: Table, name: string, attributes: Option<ChainAttributes>): (c: Chain)
    ensures c.name == name && c.table == t
    ensures attributes.None? ==> c.hooknum.None? && c.priority.None? && c.chainType == "" && c.policy.None?
    ensures attributes.Some? ==>
      && c.hooknum == attributes.value.hook
      && c.priority == attributes.value.priority
      && c.chainType == attributes.value.chainType
      && c.policy == Some(if attributes.value.policy.Some? then attributes.value.policy.value else ChainPolicyAccept)
  {
    match attributes
    case None => Chain(name, t, None, None, "", None)
    case Some(a) =>
      var policy := if a.policy.Some? then a.policy.value else ChainPolicyAccept;
      Chain(name, t, a.hook, a.priority, a.chainType, Some(policy))
  }

  function NewEntry(t: Table, name: string, attributes: Option<ChainAttributes>): ChainEntry {
    ChainEntry(attributes.Some?, Some(NewChain(t, name, attributes)), Some(Rules(t, name)))
  }

  /** What `create` does to the map and the connection */
  function CreateChain(m: map<string, ChainEntry>, t: Table, name: string,
                       attributes: Option<ChainAttributes>): (r: Step)
    ensures name in m ==> r.chains == m && r.staged == []
    ensures name in m ==> (r.err.None? <==> IsEqualChain(m[name], attributes))
    ensures name in m && r.err.Some? ==> r.err.value == AlreadyExists(name, t.name)
    ensures name !in m && attributes.Some? && attributes.value.chainType == "" ==>
      r == Step(m, [], Some(TypeNotSet))
    ensures name !in m && (attributes.None? || attributes.value.chainType != "") ==>
      && r.err.None?
      && r.chains.Keys == m.Keys + {name}
      && (forall k | k in m :: r.chains[k] == m[k])
      && r.chains[name] == NewEntry(t, name, attributes)
      && r.chains[name].baseChain == attributes.Some?
      && r.staged == [AddChain(NewChain(t, name, attributes))]
    ensures Consistent(t, m) ==> Consistent(t, r.chains)
  {
    if name in m then
      if IsEqualChain(m[name], attributes) then Step(m, [], None)
      else Step(m, [], Some(AlreadyExists(name, t.name)))
    else if attributes.Some? && Validate(attributes.value).Some? then
      Step(m, [], Validate(attributes.value))
    else
      Step(m[name := NewEntry(t, name, attributes)], [AddChain(NewChain(t, name, attributes))], None)
  }

  /** Whether a request for `again` is satisfied by the chain a request for
      `first` created: the same kind of chain and, for a base chain, the same
      type, hook and priority, and the same policy unless `again` leaves it open.
      The device is not compared. */
  predicate Compatible(first: Option<ChainAttributes>, again: Option<ChainAttributes>) {
    match first
    case None => again.None?
    case Some(f) =>
      && again.Some?
      && again.value.chainType == f.chainType
      && again.value.hook == f.hook
      && again.value.priority == f.priority
      && (again.value.policy.None? || again.value.policy == Some(f.policy.GetOr(ChainPolicyAccept)))
  }

  /** A second create of a name the first create inserted changes nothing, and
      succeeds exactly when the second request is compatible with the first */
  lemma CreateTwice(m: map<string, ChainEntry>, t: Table, name: string,
                    first: Option<ChainAttributes>, again: Option<ChainAttributes>)
    requires name !in m
    requires first.None? || first.value.chainType != ""
    ensures var s1 := CreateChain(m, t, name, first);
      var s2 := CreateChain(s1.chains, t, name, again);
      && s2.chains == s1.chains
      && s2.staged == []
      && (s2.err.None? <==> Compatible(first, again))
  {
  }

  /** Creating the same chain twice succeeds twice and stores one chain */
  lemma CreateIsIdempotent(m: map<string, ChainEntry>, t: Table, name: string,
                           attributes: Option<ChainAttributes>)
    requires name !in m
    requires attributes.None? || attributes.value.chainType != ""
    ensures var s1 := CreateChain(m, t, name, attributes);
      && s1.err.None?
      && CreateChain(s1.chains, t, name, attributes) == Step(s1.chains, [], None)
  {
    CreateTwice(m, t, name, attributes, attributes);
  }

  // ---------------------------------------------------------------------------
  // Deleting a chain

  /** What `Delete` does to the map and the connection */
  function DeleteChain(m: map<string, ChainEntry>, name: string): (r: Step)
    ensures name !in m ==> r == Step(m, [], Some(DoesNotExist(name)))
    ensures name in m ==>
      && r.err.None?
      && r.chains.Keys == m.Keys - {name}
      && (forall k | k in r.chains :: r.chains[k] == m[k])
      && r.staged == [DelChain(m[name].chain)]
  {
    if name in m then Step(m - {name}, [DelChain(m[name].chain)], None)
    else Step(m, [], Some(DoesNotExist(name)))
  }

  /** The retry loop of DeleteImm from attempt number `attempt` on, given the
      outcome `flush(i)` of the flush made at attempt number i: it stops at the
      first flush that is not busy, or when the deadline is reached */
  function DeleteRetry(flush: nat -> Option<TransportError>, attempt: nat): (r: Attempts)
    requires attempt < MaxDeleteAttempts
    decreases MaxDeleteAttempts - attempt
    ensures attempt < r.count <= MaxDeleteAttempts
    ensures r.err == flush(r.count - 1)
    ensures forall i | attempt <= i < r.count - 1 :: flush(i) == Some(Busy)
    ensures r.err == Some(Busy) ==> r.count == MaxDeleteAttempts
  {
    match flush(attempt)
    case None => Attempts(attempt + 1, None)
    case Some(e) =>
      if e != Busy || attempt + 1 == MaxDeleteAttempts then Attempts(attempt + 1, Some(e))
      else DeleteRetry(flush, attempt + 1)
  }

  /** A chain busy for the flushes before number `n` and freed at flush number
      `n`, before the deadline, is deleted by flush `n` */
  lemma {:induction false} DeleteSucceedsAfterBusy(flush: nat -> Option<TransportError>, from: nat, n: nat)
    decreases MaxDeleteAttempts - from
    requires from <= n < MaxDeleteAttempts
    requires forall i | from <= i < n :: flush(i) == Some(Busy)
    requires flush(n) == None
    ensures DeleteRetry(flush, from) == Attempts(n + 1, None)
  {
    if from < n {
      DeleteSucceedsAfterBusy(flush, from + 1, n);
    }
  }

  /** A chain that stays busy gets every flush that fits before the deadline,
      and the busy error is reported */
  lemma {:induction false} DeleteGivesUpWhenBusy(flush: nat -> Option<TransportError>, from: nat)
    decreases MaxDeleteAttempts - from
    requires from < MaxDeleteAttempts
    requires forall i | from <= i < MaxDeleteAttempts :: flush(i) == Some(Busy)
    ensures DeleteRetry(flush, from) == Attempts(MaxDeleteAttempts, Some(Busy))
  {
    if from + 1 < MaxDeleteAttempts {
      DeleteGivesUpWhenBusy(flush, from + 1);
    }
  }

  /** An error other than busy is reported at once, without a retry */
  lemma {:induction false} DeleteStopsOnOtherError(flush: nat -> Option<TransportError>, from: nat, n: nat)
    decreases MaxDeleteAttempts - from
    requires from <= n < MaxDeleteAttempts
    requires forall i | from <= i < n :: flush(i) == Some(Busy)
    requires flush(n).Some? && flush(n) != Some(Busy)
    ensures DeleteRetry(flush, from) == Attempts(n + 1, flush(n))
  {
    if from < n {
      DeleteStopsOnOtherError(flush, from + 1, n);
    }
  }

  /** `calls` repeated `n` times */
  function Repeat(calls: seq<Call>, n: nat): seq<Call> {
    if n == 0 then [] else Repeat(calls, n - 1) + calls
  }

  // ---------------------------------------------------------------------------
  // Reading the kernel's listing

  /** Whether a listed chain belongs to the store's table: same name and family */
  predicate InTable(c: Chain, t: Table) {
    c.table.name == t.name && c.table.family == t.family
  }

  /** Whether the listing holds a chain called `name` in the table */
  predicate Listed(listing: seq<Chain>, t: Table, name: string) {
    exists i | 0 <= i < |listing| :: listing[i].name == name && InTable(listing[i], t)
  }

  /** Whether every chain listed in the table is already stored */
  predicate AllListedPresent(m: map<string, ChainEntry>, t: Table, listing: seq<Chain>) {
    forall i | 0 <= i < |listing| && InTable(listing[i], t) :: listing[i].name in m
  }

  /** The names of the chains listed in the table, in listing order */
  function Names(t: Table, listing: seq<Chain>): seq<string> {
    if listing == [] then []
    else
      var c := listing[|listing| - 1];
      Names(t, listing[..|listing| - 1]) + (if InTable(c, t) then [c.name] else [])
  }

  /** The names Get reports are exactly the names listed in the table */
  lemma {:induction false} NamesAreListed(t: Table, listing: seq<Chain>)
    decreases |listing|
    ensures forall x :: x in Names(t, listing) <==> Listed(listing, t, x)
  {
    if listing != [] {
      var n := |listing| - 1;
      var init := listing[..n];
      NamesAreListed(t, init);
      forall x
        ensures x in Names(t, listing) <==> Listed(listing, t, x)
      {
        if Listed(init, t, x) {
          var i :| 0 <= i < |init| && init[i].name == x && InTable(init[i], t);
          assert listing[i] == init[i];
        }
        if Listed(listing, t, x) {
          var i :| 0 <= i < |listing| && listing[i].name == x && InTable(listing[i], t);
          if i < n {
            assert init[i] == listing[i];
          }
        }
      }
    }
  }

  /** The entry Sync builds for a listed chain: a base chain when it has a type
      and its hook is not the prerouting hook */
  function SyncedEntry(t: Table, c: Chain): (e: ChainEntry)
    ensures e.chain == Some(c) && e.rules == Some(Rules(t, c.name))
    ensures e.baseChain <==> c.chainType != "" && c.hooknum != Some(ChainHookPrerouting)
  {
    var baseChain := c.chainType != "" && c.hooknum != Some(ChainHookPrerouting);
    ChainEntry(baseChain, Some(c), Some(Rules(t, c.name)))
  }

  /** What Sync does with a listing: every chain of the table it does not hold
      yet is added and its rules synced, stopping at the first rules error */
  function SyncChains(m: map<string, ChainEntry>, t: Table, listing: seq<Chain>,
                      rulesSync: string -> Option<TransportError>): (r: SyncResult)
    decreases |listing|
    ensures forall k | k in m :: k in r.chains && r.chains[k] == m[k]
    ensures forall k | k in r.chains && k !in m :: Listed(listing, t, k)
    ensures Consistent(t, m) ==> Consistent(t, r.chains)
    ensures (forall n :: rulesSync(n).None?) ==> r.err.None?
  {
    if listing == [] then SyncResult(m, None)
    else
      var c := listing[0];
      if InTable(c, t) && c.name !in m then
        var m' := m[c.name := SyncedEntry(t, c)];
        match rulesSync(c.name)
        case Some(e) => SyncResult(m', Some(Transport(e)))
        case None => SyncChains(m', t, listing[1..], rulesSync)
      else
        SyncChains(m, t, listing[1..], rulesSync)
  }

  /** An error Sync reports is the failed rules sync of a chain it just added */
  lemma {:induction false} SyncErrorIsRulesError(m: map<string, ChainEntry>, t: Table, listing: seq<Chain>,
                                                 rulesSync: string -> Option<TransportError>)
    decreases |listing|
    requires SyncChains(m, t, listing, rulesSync).err.Some?
    ensures var r := SyncChains(m, t, listing, rulesSync);
      exists k | k in r.chains && k !in m :: rulesSync(k).Some? && r.err == Some(Transport(rulesSync(k).value))
  {
    var c := listing[0];
    var r := SyncChains(m, t, listing, rulesSync);
    if InTable(c, t) && c.name !in m {
      var m' := m[c.name := SyncedEntry(t, c)];
      if rulesSync(c.name).Some? {
        assert c.name in r.chains && c.name !in m;
      } else {
        SyncErrorIsRulesError(m', t, listing[1..], rulesSync);
      }
    } else {
      SyncErrorIsRulesError(m, t, listing[1..], rulesSync);
    }
  }

  /** Every chain Sync adds is the entry built from the first listing of its name */
  lemma {:induction false} SyncAddsListedChains(m: map<string, ChainEntry>, t: Table, listing: seq<Chain>,
                                                rulesSync: string -> Option<TransportError>, k: string)
    decreases |listing|
    requires k !in m && k in SyncChains(m, t, listing, rulesSync).chains
    ensures exists i | 0 <= i < |listing| ::
      && listing[i].name == k && InTable(listing[i], t)
      && (forall j | 0 <= j < i :: listing[j].name != k || !InTable(listing[j], t))
      && SyncChains(m, t, listing, rulesSync).chains[k] == SyncedEntry(t, listing[i])
  {
    var c := listing[0];
    if InTable(c, t) && c.name !in m && c.name == k {
      assert listing[0].name == k;
    } else {
      var m' := if InTable(c, t) && c.name !in m then m[c.name := SyncedEntry(t, c)] else m;
      assert k !in m';
      SyncAddsListedChains(m', t, listing[1..], rulesSync, k);
      var i :| 0 <= i < |listing[1..]| && listing[1..][i].name == k && InTable(listing[1..][i], t)
        && (forall j | 0 <= j < i :: listing[1..][j].name != k || !InTable(listing[1..][j], t))
        && SyncChains(m', t, listing[1..], rulesSync).chains[k] == SyncedEntry(t, listing[1..][i]);
      assert listing[i + 1] == listing[1..][i];
      forall j | 0 <= j < i + 1
        ensures listing[j].name != k || !InTable(listing[j], t)
      {
        if j > 0 {
          assert listing[j] == listing[1..][j - 1];
        }
      }
    }
  }

  /** A Sync that succeeds leaves every chain listed in the table stored */
  lemma {:induction false} SyncIsComplete(m: map<string, ChainEntry>, t: Table, listing: seq<Chain>,
                                          rulesSync: string -> Option<TransportError>)
    decreases |listing|
    requires SyncChains(m, t, listing, rulesSync).err.None?
    ensures AllListedPresent(SyncChains(m, t, listing, rulesSync).chains, t, listing)
  {
    if listing != [] {
      var c := listing[0];
      var m' := if InTable(c, t) && c.name !in m then m[c.name := SyncedEntry(t, c)] else m;
      SyncIsComplete(m', t, listing[1..], rulesSync);
      var r := SyncChains(m, t, listing, rulesSync);
      forall i | 0 <= i < |listing| && InTable(listing[i], t)
        ensures listing[i].name in r.chains
      {
        if i > 0 {
          assert listing[i] == listing[1..][i - 1];
        }
      }
    }
  }

  /** Sync adds nothing and syncs no rules when every listed chain is stored */
  lemma {:induction false} SyncOfPresent(m: map<string, ChainEntry>, t: Table, listing: seq<Chain>,
                                         rulesSync: string -> Option<TransportError>)
    decreases |listing|
    requires AllListedPresent(m, t, listing)
    ensures SyncChains(m, t, listing, rulesSync) == SyncResult(m, None)
  {
    if listing != [] {
      assert InTable(listing[0], t) ==> listing[0].name in m;
      forall i | 0 <= i < |listing[1..]| && InTable(listing[1..][i], t)
        ensures listing[1..][i].name in m
      {
        assert listing[1..][i] == listing[i + 1];
      }
      SyncOfPresent(m, t, listing[1..], rulesSync);
    }
  }

  /** A second Sync of the same listing after a successful one changes nothing */
  lemma SyncIsIdempotent(m: map<string, ChainEntry>, t: Table, listing: seq<Chain>,
                         rulesSync: string -> Option<TransportError>)
    requires SyncChains(m, t, listing, rulesSync).err.None?
    ensures var r := SyncChains(m, t, listing, rulesSync);
      SyncChains(r.chains, t, listing, rulesSync) == r
  {
    SyncIsComplete(m, t, listing, rulesSync);
    SyncOfPresent(SyncChains(m, t, listing, rulesSync).chains, t, listing, rulesSync);
  }

  // ---------------------------------------------------------------------------
  // The store

  class Chains {
    const table: Table
    var chains: map<string, ChainEntry>
    /** The requests made on the connection so far, in order */
    var calls: seq<Call>

    ghost predicate Valid()
      reads this
    {
      Consistent(table, chains)
    }

    constructor (t: Table)
      ensures table == t && chains == map[] && calls == []
      ensures Valid()
    {
      table := t;
      chains := map[];
      calls := [];
    }

    /** The rules interface of a stored chain */
    function Chain(name: string): (r: Result<Rules, Error>)
      reads this
      requires Valid()
      ensures r.Ok? <==> name in chains
      ensures r.Ok? ==> r.value == Rules(table, name)
      ensures r.Err? ==> r.error == DoesNotExist(name)
    {
      if name in chains then Ok(chains[name].rules.value) else Err(DoesNotExist(name))
    }

    /** Adds a chain to the store and stages it on the connection; succeeds
        without a change when an equal chain of that name is stored already */
    method Create(name: string, attributes: Option<ChainAttributes>) returns (err: Option<Error>)
      requires Valid()
      modifies this
      ensures Valid()
      ensures var s := CreateChain(old(chains), table, name, attributes);
        chains == s.chains && calls == old(calls) + s.staged && err == s.err
    {
      if name in chains {
        if IsEqualChain(chains[name], attributes) {
          return None;
        }
        return Some(AlreadyExists(name, table.name));
      }
      var baseChain: bool;
      if attributes.Some? {
        var e := Validate(attributes.value);
        if e.Some? {
          return e;
        }
        baseChain := true;
      } else {
        baseChain := false;
      }
      var c := NewChain(table, name, attributes);
      calls := calls + [AddChain(c)];
      chains := chains[name := ChainEntry(baseChain, Some(c), Some(Rules(table, name)))];
      return None;
    }

    /** Create followed by a flush of the connection; a failed flush is reported
        and the new entry stays in the store */
    method CreateImm(name: string, attributes: Option<ChainAttributes>, flush: Option<TransportError>)
      returns (err: Option<Error>)
      requires Valid()
      modifies this
      ensures Valid()
      ensures var s := CreateChain(old(chains), table, name, attributes);
        && chains == s.chains
        && (s.err.Some? ==> err == s.err && calls == old(calls) + s.staged)
        && (s.err.None? ==> calls == old(calls) + s.staged + [Flush])
        && (s.err.None? ==> err == if flush.Some? then Some(Transport(flush.value)) else None)
    {
      err := Create(name, attributes);
      if err.Some? {
        return;
      }
      calls := calls + [Flush];
      if flush.Some? {
        return Some(Transport(flush.value));
      }
      return None;
    }

    /** Removes a chain from the store and stages its deletion */
    method Delete(name: string) returns (err: Option<Error>)
      requires Valid()
      modifies this
      ensures Valid()
      ensures var s := DeleteChain(old(chains), name);
        chains == s.chains && calls == old(calls) + s.staged && err == s.err
    {
      if name in chains {
        calls := calls + [DelChain(chains[name].chain)];
        chains := chains - {name};
      } else {
        return Some(DoesNotExist(name));
      }
      return None;
    }

    /** Deletes a chain in the kernel at once, flushing again while the kernel
        reports it busy until the deadline; the entry leaves the store only when
        a flush succeeds */
    method DeleteImm(name: string, flush: nat -> Option<TransportError>) returns (err: Option<Error>)
      requires Valid()
      modifies this
      ensures Valid()
      ensures name !in old(chains) ==>
        err == Some(DoesNotExist(name)) && chains == old(chains) && calls == old(calls)
      ensures name in old(chains) ==>
        var r := DeleteRetry(flush, 0);
        && calls == old(calls) + Repeat([DelChain(old(chains)[name].chain), Flush], r.count)
        && (r.err.None? ==> err.None? && chains == old(chains) - {name})
        && (r.err.Some? ==> err == Some(Transport(r.err.value)) && chains == old(chains))
    {
      if name !in chains {
        return Some(DoesNotExist(name));
      }
      var ch := chains[name];
      var attempt := 0;
      while true
        invariant 0 <= attempt < MaxDeleteAttempts
        invariant DeleteRetry(flush, attempt) == DeleteRetry(flush, 0)
        invariant calls == old(calls) + Repeat([DelChain(ch.chain), Flush], attempt)
        invariant chains == old(chains)
        decreases MaxDeleteAttempts - attempt
      {
        calls := calls + [DelChain(ch.chain), Flush];
        assert calls == old(calls) + Repeat([DelChain(ch.chain), Flush], attempt + 1);
        var e := flush(attempt);
        if e.None? {
          assert DeleteRetry(flush, attempt) == Attempts(attempt + 1, None);
          chains := chains - {name};
          return None;
        }
        if e.value != Busy {
          assert DeleteRetry(flush, attempt) == Attempts(attempt + 1, e);
          return Some(Transport(e.value));
        }
        if attempt + 1 == MaxDeleteAttempts {
          // the deadline has passed
          assert DeleteRetry(flush, attempt) == Attempts(attempt + 1, e);
          return Some(Transport(e.value));
        }
        attempt := attempt + 1;
      }
    }

    /** Adds every chain of the table in the kernel's listing that the store
        does not hold, and syncs its rules; never replaces or removes an entry */
    method Sync(listing: Result<seq<Chain>, TransportError>, rulesSync: string -> Option<TransportError>)
      returns (err: Option<Error>)
      requires Valid()
      modifies this
      ensures Valid()
      ensures calls == old(calls)
      ensures listing.Err? ==> err == Some(Transport(listing.error)) && chains == old(chains)
      ensures listing.Ok? ==>
        var s := SyncChains(old(chains), table, listing.value, rulesSync);
        chains == s.chains && err == s.err
    {
      if listing.Err? {
        return Some(Transport(listing.error));
      }
      var l := listing.value;
      for i := 0 to |l|
        invariant Consistent(table, chains) && calls == old(calls)
        invariant SyncChains(chains, table, l[i..], rulesSync) == SyncChains(old(chains), table, l, rulesSync)
      {
        assert l[i..][1..] == l[i + 1..];
        var c := l[i];
        if InTable(c, table) && c.name !in chains {
          chains := chains[c.name := SyncedEntry(table, c)];
          var e := rulesSync(c.name);
          if e.Some? {
            return Some(Transport(e.value));
          }
        }
      }
      return None;
    }

    /** Whether the chain is known: stored, or listed in the table and absorbed
        by a Sync that succeeds */
    method Exist(name: string, listing: Result<seq<Chain>, TransportError>,
                 rulesSync: string -> Option<TransportError>) returns (found: bool)
      requires Valid()
      modifies this
      ensures Valid()
      ensures calls == old(calls)
      ensures found ==> name in chains
      ensures name in old(chains) ==> found && chains == old(chains)
      ensures name !in old(chains) && !(listing.Ok? && Listed(listing.value, table, name)) ==>
        !found && chains == old(chains)
      ensures name !in old(chains) && listing.Ok? && Listed(listing.value, table, name) ==>
        var s := SyncChains(old(chains), table, listing.value, rulesSync);
        chains == s.chains && found == s.err.None?
    {
      if name in chains {
        return true;
      }
      if listing.Err? {
        return false;
      }
      var l := listing.value;
      for i := 0 to |l|
        invariant chains == old(chains)
        invariant forall j | 0 <= j < i :: !(l[j].name == name && InTable(l[j], table))
      {
        if l[i].name == name {
          if InTable(l[i], table) {
            var err := Sync(listing, rulesSync);
            if err.None? {
              SyncIsComplete(old(chains), table, l, rulesSync);
              return true;
            }
            return false;
          }
        }
      }
      return false;
    }

    /** The names of the chains the kernel lists in the table, after absorbing
        those missing from the store */
    method Get(listing: Result<seq<Chain>, TransportError>, rulesSync: string -> Option<TransportError>)
      returns (r: Result<seq<string>, Error>)
      requires Valid()
      modifies this
      ensures Valid()
      ensures calls == old(calls)
      ensures listing.Err? ==> r == Err(Transport(listing.error)) && chains == old(chains)
      ensures listing.Ok? && AllListedPresent(old(chains), table, listing.value) ==>
        r == Ok(Names(table, listing.value)) && chains == old(chains)
      ensures listing.Ok? && !AllListedPresent(old(chains), table, listing.value) ==>
        var s := SyncChains(old(chains), table, listing.value, rulesSync);
        && chains == s.chains
        && r == if s.err.None? then Ok(Names(table, listing.value)) else Err(MissingChainSync(table.name, s.err.value))
    {
      if listing.Err? {
        return Err(Transport(listing.error));
      }
      var l := listing.value;
      var chainNames: seq<string> := [];
      var synced := false;
      for i := 0 to |l|
        invariant Valid() && calls == old(calls)
        invariant chainNames == Names(table, l[..i])
        invariant !synced ==> chains == old(chains) && forall j | 0 <= j < i && InTable(l[j], table) :: l[j].name in chains
        invariant synced ==>
          var s := SyncChains(old(chains), table, l, rulesSync);
          && chains == s.chains && s.err.None?
          && AllListedPresent(chains, table, l)
          && !AllListedPresent(old(chains), table, l)
      {
        assert l[..i + 1][..i] == l[..i];
        var c := l[i];
        if InTable(c, table) {
          if c.name !in chains {
            var err := Sync(listing, rulesSync);
            if err.Some? {
              return Err(MissingChainSync(c.table.name, err.value));
            }
            SyncIsComplete(old(chains), table, l, rulesSync);
            synced := true;
          }
          chainNames := chainNames + [c.name];
        }
      }
      assert l[..|l|] == l;
      return Ok(chainNames);
    }

    /** Whether the kernel lists the chain in the table */
    method Ready(name: string, listing: Result<seq<Chain>, TransportError>) returns (r: Result<bool, Error>)
      ensures listing.Err? ==> r == Err(Transport(listing.error))
      ensures listing.Ok? ==> r == Ok(Listed(listing.value, table, name))
    {
      if listing.Err? {
        return Err(Transport(listing.error));
      }
      var l := listing.value;
      for i := 0 to |l|
        invariant forall j | 0 <= j < i :: !(l[j].name == name && InTable(l[j], table))
      {
        if InTable(l[i], table) {
          if name == l[i].name {
            return Ok(true);
          }
        }
      }
      return Ok(false);
    }
  }
}
