/** The types of the netlink library that the chain store and the L3 compiler are
    written against, reduced to the fields the core reads, writes or compares. */
module Nftables {
  import opened Wrappers

  type uint32 = x: int | 0 <= x < 0x1_0000_0000

  /** A table's protocol family: an 8-bit NFPROTO_* code */
  type Family = f: int | 0 <= f < 0x100

  const FamilyIPv4: Family := 2
  const FamilyIPv6: Family := 10

  datatype Table = Table(name: string, family: Family)

  /** The address of a value the source holds by pointer. Chain hooks and chain
      priorities are pointers there and are compared by address, not by the value
      they point to; a Ref stands for that address. */
  datatype Ref = Ref(address: nat)

  /** The address of the library's package-level prerouting hook value */
  const ChainHookPrerouting: Ref := Ref(0)

  type ChainPolicy = uint32

  const ChainPolicyDrop: ChainPolicy := 0
  const ChainPolicyAccept: ChainPolicy := 1

  /** A chain as the library describes it to the kernel and lists it back */
  datatype Chain = Chain(
    name: string,
    table: Table,
    hooknum: Option<Ref>,
    priority: Option<Ref>,
    chainType: string,
    policy: Option<ChainPolicy>)

  /** An error reported by the connection; "resource busy" (EBUSY) is the only
      kind the core tells apart from the others */
  datatype TransportError = Busy | Other(code: int)

  /** The data type of a set's keys, with the width of one key in bytes */
  datatype KeyType = KeyType(name: string, bytes: nat)

  const TypeIPAddr: KeyType := KeyType("ipv4_addr", 4)
  const TypeIP6Addr: KeyType := KeyType("ipv6_addr", 16)

  datatype SetElement = SetElement(key: seq<bv8>)

  /** A set definition owned by the caller; the L3 compiler writes its key type */
  class NfSet {
    var name: string
    var keyType: KeyType

    constructor (name: string, keyType: KeyType)
      ensures this.name == name && this.keyType == keyType
    {
      this.name := name;
      this.keyType := keyType;
    }
  }
}
