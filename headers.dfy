/** The fixed part of the IPv4 header (section 3.1 of RFC 791) and of the IPv6
    header (section 3 of RFC 8200), field by field with widths in bits. The byte
    offsets the L3 compiler loads addresses from are checked against these. */
module Headers {
  import opened Wrappers

  datatype FieldName =
    | Version | InternetHeaderLength | TypeOfService | TotalLength | Identification
    | Flags | FragmentOffset | TimeToLive | Protocol | HeaderChecksum
    | TrafficClass | FlowLabel | PayloadLength | NextHeader | HopLimit
    | SourceAddress | DestinationAddress

  datatype Field = Field(name: FieldName, bits: nat)

  /** Where a field lies in a header: its first bit and its width */
  datatype Span = Span(startBit: nat, bits: nat)

  const IPv4Header: seq<Field> := [
    Field(Version, 4), Field(InternetHeaderLength, 4), Field(TypeOfService, 8),
    Field(TotalLength, 16), Field(Identification, 16), Field(Flags, 3),
    Field(FragmentOffset, 13), Field(TimeToLive, 8), Field(Protocol, 8),
    Field(HeaderChecksum, 16), Field(SourceAddress, 32), Field(DestinationAddress, 32)]

  const IPv6Header: seq<Field> := [
    Field(Version, 4), Field(TrafficClass, 8), Field(FlowLabel, 20),
    Field(PayloadLength, 16), Field(NextHeader, 8), Field(HopLimit, 8),
    Field(SourceAddress, 128), Field(DestinationAddress, 128)]

  /** The span of the first field called `name`, or None when there is none */
  function Locate(header: seq<Field>, name: FieldName): Option<Span> {
    if header == [] then None
    else if header[0].name == name then Some(Span(0, header[0].bits))
    else
      match Locate(header[1..], name)
      case None => None
      case Some(s) => Some(Span(header[0].bits + s.startBit, s.bits))
  }

  /** A field is found exactly when the header has one of that name, and its
      span is as wide as that field */
  lemma {:induction false} LocateFindsField(header: seq<Field>, name: FieldName)
    decreases |header|
    ensures Locate(header, name).Some? <==> exists i | 0 <= i < |header| :: header[i].name == name
    ensures Locate(header, name).Some? ==>
      exists i | 0 <= i < |header| :: header[i].name == name && header[i].bits == Locate(header, name).value.bits
  {
    if header != [] && header[0].name != name {
      var rest := header[1..];
      LocateFindsField(rest, name);
      if exists i | 0 <= i < |header| :: header[i].name == name {
        var i :| 0 <= i < |header| && header[i].name == name;
        assert rest[i - 1] == header[i];
      }
      if Locate(rest, name).Some? {
        var i :| 0 <= i < |rest| && rest[i].name == name && rest[i].bits == Locate(rest, name).value.bits;
        assert header[i + 1] == rest[i];
      }
    }
  }

  /** Bits taken by the first `k` fields */
  function Before(header: seq<Field>, k: nat): nat
    requires k <= |header|
  {
    if k == 0 then 0 else Before(header, k - 1) + header[k - 1].bits
  }

  /** A field found after `k` fields of other names lies `Before(header, k)` bits
      further into the whole header than into its suffix */
  lemma {:induction false} LocateAfter(header: seq<Field>, k: nat, name: FieldName, s: Span)
    requires k <= |header|
    requires forall j | 0 <= j < k :: header[j].name != name
    requires Locate(header[k..], name) == Some(s)
    ensures Locate(header, name) == Some(Span(Before(header, k) + s.startBit, s.bits))
  {
    if k > 0 {
      var rest := header[1..];
      assert rest[k - 1..] == header[k..];
      LocateAfter(rest, k - 1, name, s);
      BeforeTail(header, k);
    }
  }

  lemma {:induction false} BeforeTail(header: seq<Field>, k: nat)
    requires 0 < k <= |header|
    ensures Before(header, k) == header[0].bits + Before(header[1..], k - 1)
  {
    if k > 1 {
      BeforeTail(header, k - 1);
    }
  }

  /** The IPv4 address fields: byte aligned, 4 bytes wide, at octets 12 and 16 */
  lemma IPv4AddressSpans()
    ensures Locate(IPv4Header, SourceAddress) == Some(Span(12 * 8, 4 * 8))
    ensures Locate(IPv4Header, DestinationAddress) == Some(Span(16 * 8, 4 * 8))
  {
    IPv4Source();
    IPv4Destination();
  }

  lemma IPv4Before()
    ensures Before(IPv4Header, 10) == 96 && Before(IPv4Header, 11) == 128
  {
    var h := IPv4Header;
    assert Before(h, 3) == 16;
    assert Before(h, 6) == 51;
    assert Before(h, 8) == 72;
  }

  lemma IPv4Source()
    ensures Locate(IPv4Header, SourceAddress) == Some(Span(96, 32))
  {
    var h := IPv4Header;
    IPv4Before();
    assert h[10..] == [Field(SourceAddress, 32), Field(DestinationAddress, 32)];
    LocateAfter(h, 10, SourceAddress, Span(0, 32));
  }

  lemma IPv4Destination()
    ensures Locate(IPv4Header, DestinationAddress) == Some(Span(128, 32))
  {
    var h := IPv4Header;
    IPv4Before();
    assert h[11..] == [Field(DestinationAddress, 32)];
    LocateAfter(h, 11, DestinationAddress, Span(0, 32));
  }

  /** The IPv6 address fields: byte aligned, 16 bytes wide, at octets 8 and 24 */
  lemma IPv6AddressSpans()
    ensures Locate(IPv6Header, SourceAddress) == Some(Span(8 * 8, 16 * 8))
    ensures Locate(IPv6Header, DestinationAddress) == Some(Span(24 * 8, 16 * 8))
  {
    var h := IPv6Header;
    assert h[6..] == [Field(SourceAddress, 128), Field(DestinationAddress, 128)];
    assert h[7..] == [Field(DestinationAddress, 128)];
    assert Before(h, 6) == 64;
    assert Before(h, 7) == 192;
    LocateAfter(h, 6, SourceAddress, Span(0, 128));
    LocateAfter(h, 7, DestinationAddress, Span(0, 128));
  }
}
