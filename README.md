# nftableslib chain store and L3 match compiler, in Dafny

This project models two parts of nftableslib, a Go library that programs
nftables through netlink.

- **The chain store of a table** (`nfChains`). It is an in-memory map from
  chain name to the stored chain: the kernel chain description, whether the
  chain is a base chain, and the chain's rules interface. The store creates
  chains, which is idempotent for an equal request and a conflict otherwise.
  It deletes chains, either staged or at once. An immediate delete retries
  while the kernel reports the chain busy, until a deadline. The store also
  reads the kernel's chain listing, to absorb chains it lacks (`Sync`), to
  answer `Exist`, `Get` and `Ready`, and it hands out a chain's rules
  interface (`Chain`). It is modelled as the class `NfChains.Chains`. The class
  has a `map` field, and a `calls` field that records the requests made on the
  connection (`AddChain`, `DelChain`, `Flush`). The methods are specified by
  pure functions on the map (`CreateChain`, `DeleteChain`, `SyncChains`,
  `DeleteRetry`), and the promised properties are proved about those
  functions. All methods preserve the invariant `Valid()`: every entry holds a
  chain of the store's table, named like its key, with that chain's rules
  interface.
- **The L3 match compiler** (`createL3` and its helpers). It turns a rule's
  network-layer criteria into a match expression plus, for a list of two or
  more addresses, the elements of the set that the expression looks the
  address up in. The model pins down the following:
  - The byte offset is checked against the field layouts of the IPv4 header
    (section 3.1 of RFC 791) and the IPv6 header (section 3 of RFC 8200):
    source at octet 12 and destination at 16 for IPv4, 8 and 24 for IPv6.
  - Precedence: version first, then destination over source, then list over
    range.
  - One address compiles to an inline comparison.
  - Longer lists give one set element per address, normalised to 4 or 16
    bytes.
  - The compiler writes the caller's set key type and nothing else of the set.

What the connection and the kernel answer is a parameter of each operation: the
chain listing (or its error), the outcome of each flush, and the outcome of
syncing a chain's rules. Go's `net.IP.To4` and `net.IP.To16` are written out in
module `NetIP`. The library's expression constructors are represented by the
`Expr` datatype. Each `Expr` records the family, offset, operand and exclude
flag that the constructor is given.

Files: `wrappers.dfy` (Option, Result), `nftables.dfy` (library types: table,
chain, policy, set key types, set), `netip.dfy`, `headers.dfy` (the RFC header
layouts), `nfchains.dfy`, `nfrule_l3.dfy`.

Three behaviours of the code that a reader might not expect:

- `DeleteImm` removes the entry only after a flush succeeds
  (`nfchains.go:225-227`), so a busy or failed immediate delete keeps it.
- A second create that differs only in the device, or that leaves out the
  policy, succeeds (`nfchains.go:114-128`). `CreateTwice` states exactly which
  second requests succeed.
- In the source, chain hooks and priorities are pointers, and `isEqualChain`
  and `Sync` compare them with `!=`, which compares addresses
  (`nfchains.go:115-117`, `nfchains.go:251`). The model compares them as
  addresses (`Ref`), not as the hook numbers they point to.

## Model

| member | source | states |
|---|---|---|
| `NfChains.Validate` | nfchains.go:43-50 | base-chain attributes are accepted exactly when their type is set; otherwise the error is the missing-type error |
| `NfChains.IsEqualChain` | nfchains.go:95-131 | the stored chain does not match when its chain or rules interface is nil, when a base chain is asked for without attributes or a regular chain with them, when hook, type or priority differ, or when a requested policy differs from the stored one |
| `NfChains.NewChain` | nfchains.go:141-166 | a new regular chain carries only its name and table; a new base chain carries the requested hook, priority and type, and the requested policy or accept when none is given |
| `NfChains.CreateChain` | nfchains.go:133-174 | a name already present leaves the map unchanged, stages nothing, and succeeds exactly when `IsEqualChain` holds (otherwise "already exists" in this table); a new name with type-less attributes is rejected with nothing inserted; any other new name gets exactly one new entry, the `NewChain` chain with its rules interface (base iff attributes are given), all other entries unchanged, and exactly that chain staged with `AddChain`; store consistency is kept |
| `NfChains.CreateTwice` | nfchains.go:133-139 | after a create inserts a name, a second create of it changes nothing and succeeds exactly when the second request is `Compatible` with the first (same kind and, for base chains, same type, hook and priority, and same policy unless none is requested) |
| `NfChains.CreateIsIdempotent` | nfchains.go:133-139 | creating the same chain twice succeeds both times and the second call changes nothing |
| `NfChains.Chains.Create` | nfchains.go:176-181 | the store's map and staged requests become those `CreateChain` gives; `Valid()` is kept |
| `NfChains.Chains.CreateImm` | nfchains.go:183-195 | a create error is returned with no flush; otherwise a flush is requested and its error is returned, with the new entry left in the map |
| `NfChains.DeleteChain` | nfchains.go:197-208 | an unknown name gives "does not exist" and changes nothing; a known name loses exactly its key, every other entry unchanged, and one `DelChain` of its chain is staged |
| `NfChains.Chains.Delete` | nfchains.go:197-208 | the store's map and staged requests become those `DeleteChain` gives |
| `NfChains.DeleteRetry` | nfchains.go:218-239 | the retry loop makes between one and `MaxDeleteAttempts` (60 s / 6 s = 10) flushes, and every flush before the last was busy; it reports the last flush's outcome, and a busy outcome only at the deadline |
| `NfChains.DeleteSucceedsAfterBusy` | nfchains.go:222-228 | busy on the flushes before flush n and success at flush n, before the deadline, means the delete succeeds after exactly n + 1 flushes |
| `NfChains.DeleteGivesUpWhenBusy` | nfchains.go:230-236 | a chain busy on every flush gets all the flushes that fit before the deadline, and the busy error is returned |
| `NfChains.DeleteStopsOnOtherError` | nfchains.go:229-232 | an error other than busy is returned at once, with no further flush |
| `NfChains.Chains.DeleteImm` | nfchains.go:210-240 | an unknown name is an error and changes nothing; otherwise each attempt stages `DelChain` then `Flush`, the entry is removed only when a flush succeeds, and after a busy deadline or another error the entry stays and that error is returned |
| `NfChains.SyncedEntry` | nfchains.go:250-259 | a listed chain is stored as a base chain exactly when it has a type and its hook is not the prerouting hook, with its own rules interface |
| `NfChains.SyncChains` | nfchains.go:247-266 | existing entries are never replaced or removed; every added name is listed in the store's table (same table name and family); store consistency is kept; when every rules sync succeeds, Sync succeeds |
| `NfChains.SyncErrorIsRulesError` | nfchains.go:254-263 | an error Sync reports is the failed rules sync of a chain it has just added |
| `NfChains.SyncAddsListedChains` | nfchains.go:247-260 | each added entry is the one built from the first listing of that name in the store's table |
| `NfChains.SyncIsComplete` | nfchains.go:247-268 | after a Sync without error, every chain listed in the table is stored |
| `NfChains.SyncOfPresent` | nfchains.go:249-264 | when every listed chain of the table is stored already, Sync changes nothing and syncs no rules |
| `NfChains.SyncIsIdempotent` | nfchains.go:242-269 | a second Sync of the same listing after a successful one changes nothing |
| `NfChains.Chains.Sync` | nfchains.go:242-269 | a listing error is returned with the map unchanged; otherwise the map becomes the one `SyncChains` gives, stopping at the first rules-sync error |
| `NfChains.Chains.Exist` | nfchains.go:293-318 | true at once for a stored name; otherwise true only when the listing names the chain in this table and the following Sync succeeds; a listing error gives false; a true answer leaves the name stored |
| `NfChains.NamesAreListed` | nfchains.go:326-338 | the names Get collects are exactly the names of the chains listed in the store's table |
| `NfChains.Chains.Get` | nfchains.go:321-341 | a listing error is returned; otherwise the result is the names of the table's listed chains in listing order, after one Sync when any of them is missing from the store, and a failing Sync is reported as such |
| `NfChains.Chains.Ready` | nfchains.go:344-358 | a listing error is returned; otherwise the result says whether the listing names the chain in this table |
| `NfChains.Chains.Chain` | nfchains.go:79-88 | a stored chain's rules interface, or "does not exist" for an unknown name |
| `NfChains.Chains.constructor` | nfchains.go:360-366 | a new store is empty and has made no requests |
| `NfRuleL3.AddrTarget` | nfrule_l3.go:14-46 | with no source and no destination the error is "both nil"; an address criterion in a family other than IPv4 or IPv6 is "unknown family"; otherwise the destination wins over the source, at offset 12 (source) or 16 (destination) with the IPv4 key type, or 8 or 24 with the IPv6 key type |
| `NfRuleL3.OffsetsFollowHeaderLayout` | nfrule_l3.go:14-43 | the chosen offset is where the chosen address field starts in the RFC 791 or RFC 8200 header, and the key type is as wide as that field |
| `NfRuleL3.ElementKey` | nfrule_l3.go:71-80 | an IPv4 (or IPv4-in-IPv6) address becomes a 4-byte key in an IPv4 table; a 4- or 16-byte address becomes a 16-byte key in an IPv6 table |
| `NfRuleL3.ElementKeyKeepsAddress` | nfrule_l3.go:71-80 | a non-nil key denotes the same address as the entry it was made from |
| `NfRuleL3.AddrList` | nfrule_l3.go:57-93 | one address gives an inline comparison at the offset, with the exclude flag and no set elements; two or more give a set lookup at the offset with the exclude flag, and exactly one element per address, in list order, keyed by its normalised form; an empty list is the "unknown family" error |
| `NfRuleL3.ProcessAddrList` | nfrule_l3.go:57-93 | filling a zeroed array entry by entry yields exactly what `AddrList` states |
| `NfRuleL3.ProcessAddrRange` | nfrule_l3.go:95-104 | a range compiles to a single expression and no set elements |
| `NfRuleL3.ProcessVersion` | nfrule_l3.go:106-115 | a version match compiles to a single expression and no set elements |
| `NfRuleL3.CompileL3` | nfrule_l3.go:9-55 | a version match wins, with the addresses ignored; otherwise an address-selection error is returned as is; a non-empty list wins over the range (one address inline; two or more as a set lookup with one element per address); a range is used only when both ends are set; otherwise "no address" |
| `NfRuleL3.KeyTypeWritten` | nfrule_l3.go:18-43 | the set key type is written exactly when no version is given, a source or destination is, and the family is IPv4 or IPv6, and it is the key type of that family |
| `NfRuleL3.CreateL3` | nfrule_l3.go:9-55 | returns what `CompileL3` states and writes only the set's key type, as `KeyTypeWritten` states |
| `NfRuleL3.ElementsFitKeyType` | nfrule_l3.go:70-80 | when every address is 4 bytes, or 16 bytes in an IPv6 table or in IPv4-in-IPv6 form, every set element's key is exactly as wide as the key type written to the set |
| `NfRuleL3.DestinationListExample` | nfrule_l3.go:31-92 | two IPv4 destinations compile to one set lookup at offset 16 and two 4-byte elements |
| `NetIP.To4` | nfrule_l3.go:73 | the 4-byte form exists exactly for 4-byte and IPv4-in-IPv6 addresses and is their last four bytes; it is nil otherwise |
| `NetIP.To16` | nfrule_l3.go:78 | the 16-byte form exists exactly for 4- and 16-byte addresses and is nil otherwise |
| `NetIP.To4OfTo16` | nfrule_l3.go:73-78 | widening a 4-byte address and narrowing it again gives it back |
| `Headers.IPv4AddressSpans` | nfrule_l3.go:14 | in the RFC 791 layout, the source address spans bits 96-127 (octet 12) and the destination bits 128-159 (octet 16) |
| `Headers.IPv6AddressSpans` | nfrule_l3.go:15 | in the RFC 8200 layout, the source address spans octets 8-23 and the destination octets 24-39 |

## Left out

- Locking: the store's mutex only serialises concurrent callers, so operations are modelled as sequential. The unlocked reads in `Sync`, `Exist` and `Get` are not modelled.
- `Dump`: it concatenates the JSON encoding of each chain and the rules interface's own dump, in map iteration order. The encoding belongs to the JSON library and the rules dump is not part of this model.
- `Chains()` just returns the store itself, and `ChainReadyTimeout` is not used by the modelled code.
- The connection: `AddChain` is assumed to return the chain it is given. `ListChains` is a parameter (a listing or an error), and every listing taken within one call (`Exist` or `Get` and the `Sync` it triggers) is assumed to be the same. Each flush's outcome is a parameter. The connection's batching and the kernel's state are not modelled; only the requests made are recorded.
- The rules interface (`newRules`, `Rules().Sync()`): it is not part of this model. It is represented by a value naming its table and chain, and the outcome of syncing a chain's rules is a parameter.
- NfChains.Chains.DeleteImm: wall-clock time is replaced by a budget of ten flushes. That budget is the 60 s deadline divided by the 6 s ticker period. When the tick and the timer fire together at the deadline, Go may pick the tick and make an eleventh flush. Time spent inside a flush, which can delay ticks, is not modelled either.
- NfRuleL3.CompileL3: the library's expression constructors (`getExprForSingleIP`, `getExprForListIP`, `getExprForRangeIP`, `getExprForIPVersion`) are not part of this model. They are taken to always succeed, so any error they return is not modelled.
- `L3Rule.Protocol`, and a rule's L4, metadata and action parts, are not read by `createL3` and are not modelled.
- A nil `rule.L3` or a nil entry in an address list makes the source panic. The model's types have no such values.
- Hook and priority values are never read by the modelled code, only compared by address, so a `Ref` carries only an address.
- `processAddrList` checks `len(setElements) == 0` to report an unknown family. The slice has one element per list entry, so that check fires only for an empty list, which `createL3` never passes. For a family other than IPv4 or IPv6, the elements would keep their nil keys. `AddrList` states both cases as written.
