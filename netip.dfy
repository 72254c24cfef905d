/** The two normalisations of an IP address (a byte string) that the L3 compiler
    applies to set keys: Go's `net.IP.To4` and `net.IP.To16`. A result of `[]`
    stands for Go's nil. */
module NetIP {

  const IPv4Len: nat := 4
  const IPv6Len: nat := 16

  /** The first twelve bytes of an IPv4 address written in IPv6 form */
  const V4InV6Prefix: seq<bv8> := [0, 0, 0, 0, 0, 0, 0, 0, 0, 0, 0xff, 0xff]

  predicate IsV4InV6(ip: seq<bv8>) {
    |ip| == IPv6Len && ip[..12] == V4InV6Prefix
  }

  /** The 4-byte form of an IPv4 address, or nil when `ip` is not one */
  function To4(ip: seq<bv8>): (r: seq<bv8>)
    ensures |r| == IPv4Len <==> |ip| == IPv4Len || IsV4InV6(ip)
    ensures |r| != IPv4Len ==> r == []
    ensures |r| == IPv4Len ==> r == ip[|ip| - IPv4Len..]
  {
    if |ip| == IPv4Len then ip
    else if IsV4InV6(ip) then ip[12..16]
    else []
  }

  /** The 16-byte form of an address, or nil when `ip` has neither length */
  function To16(ip: seq<bv8>): (r: seq<bv8>)
    ensures |r| == IPv6Len <==> |ip| == IPv4Len || |ip| == IPv6Len
    ensures |r| != IPv6Len ==> r == []
  {
    if |ip| == IPv4Len then V4InV6Prefix + ip
    else if |ip| == IPv6Len then ip
    else []
  }

  /** Widening a 4-byte address and narrowing it again gives it back */
  lemma To4OfTo16(a: seq<bv8>)
    requires |a| == IPv4Len
    ensures To4(To16(a)) == a
  {
    assert To16(a)[..12] == V4InV6Prefix;
  }

  /** Narrowing loses nothing: the 4-byte form denotes the same address */
  lemma To16OfTo4(ip: seq<bv8>)
    requires To4(ip) != []
    ensures To16(To4(ip)) == To16(ip)
  {
    if |ip| == IPv6Len {
      assert ip == ip[..12] + ip[12..];
    }
  }
}
