/** The L3 part of the rule compiler: it turns the network-layer criteria of a
    rule (an IP version, or a source or destination address list or range) into
    a match expression and, for an address list of two or more entries, the
    elements of the set the expression looks addresses up in.

    The expression constructors of the library are not modelled: an `Expr`
    records what each is given (the header offset, the operand, the exclude
    flag). */
module NfRuleL3 {
  import opened Wrappers
  import opened Nftables
  import NetIP
  import Headers

  datatype IPAddr = IPAddr(ip: seq<bv8>, cidr: bool, mask: Option<bv8>)

  /** Addresses as a list, or as a range whose two ends may each be nil */
  datatype IPAddrSpec = IPAddrSpec(list: seq<IPAddr>, rangeFrom: Option<IPAddr>, rangeTo: Option<IPAddr>)

  datatype L3Rule = L3Rule(src: Option<IPAddrSpec>, dst: Option<IPAddrSpec>, version: Option<uint32>)

  /** The parts of a rule the L3 compiler reads */
  datatype Rule = Rule(l3: L3Rule, exclude: bool)

  /** The match expressions, by the constructor that builds each */
  datatype Expr =
    | VersionExpr(version: uint32, exclude: bool)
    | SingleIPExpr(family: Family, offset: nat, addr: IPAddr, exclude: bool)
    | ListIPExpr(family: Family, lookup: NfSet, offset: nat, exclude: bool)
    | RangeIPExpr(family: Family, offset: nat, low: IPAddr, high: IPAddr, exclude: bool)

  datatype Error =
    | UnknownFamily(family: Family)
    | NoSourceOrDestination
    | NoAddress

  /** A compiled L3 match: the expression, and the set elements it needs ([] for nil) */
  datatype L3Out = L3Out(expr: Expr, elements: seq<SetElement>)

  /** The addresses to match, where the header holds them, and the key type of
      the set that may hold them */
  datatype Target = Target(spec: IPAddrSpec, offset: nat, keyType: KeyType)

  predicate KnownFamily(family: Family) {
    family == FamilyIPv4 || family == FamilyIPv6
  }

  /** The address field at `v4Offset` in an IPv4 header or `v6Offset` in an IPv6 one */
  function AddrField(family: Family, spec: IPAddrSpec, v4Offset: nat, v6Offset: nat): Result<Target, Error> {
    if family == FamilyIPv4 then Ok(Target(spec, v4Offset, TypeIPAddr))
    else if family == FamilyIPv6 then Ok(Target(spec, v6Offset, TypeIP6Addr))
    else Err(UnknownFamily(family))
  }

  /** The address criterion a rule matches on: the destination when there is
      one, otherwise the source */
  function AddrTarget(family: Family, l3: L3Rule): (r: Result<Target, Error>)
    ensures r.Ok? <==> (l3.src.Some? || l3.dst.Some?) && KnownFamily(family)
    ensures l3.src.None? && l3.dst.None? ==> r == Err(NoSourceOrDestination)
    ensures (l3.src.Some? || l3.dst.Some?) && !KnownFamily(family) ==> r == Err(UnknownFamily(family))
    ensures r.Ok? ==> r.value.spec == if l3.dst.Some? then l3.dst.value else l3.src.value
    ensures r.Ok? && family == FamilyIPv4 ==>
      r.value.offset == (if l3.dst.Some? then 16 else 12) && r.value.keyType == TypeIPAddr
    ensures r.Ok? && family == FamilyIPv6 ==>
      r.value.offset == (if l3.dst.Some? then 24 else 8) && r.value.keyType == TypeIP6Addr
  {
    // IPv4: source at offset 12, destination at 16; IPv6: source at 8, destination at 24
    if l3.src.Some? && AddrField(family, l3.src.value, 12, 8).Err? then AddrField(family, l3.src.value, 12, 8)
    else if l3.dst.Some? then AddrField(family, l3.dst.value, 16, 24)
    else if l3.src.Some? then AddrField(family, l3.src.value, 12, 8)
    else Err(NoSourceOrDestination)
  }

  /** The offset and key type agree with the header layouts: the chosen
      offset is where the address field starts, and a key is as wide as it */
  lemma OffsetsFollowHeaderLayout(family: Family, l3: L3Rule)
    requires AddrTarget(family, l3).Ok?
    ensures var t := AddrTarget(family, l3).value;
      var header := if family == FamilyIPv4 then Headers.IPv4Header else Headers.IPv6Header;
      var field := if l3.dst.Some? then Headers.DestinationAddress else Headers.SourceAddress;
      Headers.Locate(header, field) == Some(Headers.Span(t.offset * 8, t.keyType.bytes * 8))
  {
    Headers.IPv4AddressSpans();
    Headers.IPv6AddressSpans();
  }

  /** The key of the set element for `ip` in a table of `family`: its 4-byte
      form for IPv4, its 16-byte form for IPv6, nil otherwise */
  function ElementKey(family: Family, ip: seq<bv8>): (key: seq<bv8>)
    ensures family == FamilyIPv4 && (|ip| == 4 || NetIP.IsV4InV6(ip)) ==> |key| == TypeIPAddr.bytes
    ensures family == FamilyIPv6 && (|ip| == 4 || |ip| == 16) ==> |key| == TypeIP6Addr.bytes
  {
    if family == FamilyIPv4 then NetIP.To4(ip)
    else if family == FamilyIPv6 then NetIP.To16(ip)
    else []
  }

  /** A key denotes the address it was made from */
  lemma ElementKeyKeepsAddress(family: Family, ip: seq<bv8>)
    requires ElementKey(family, ip) != []
    ensures NetIP.To16(ElementKey(family, ip)) == NetIP.To16(ip)
  {
    if family == FamilyIPv4 {
      NetIP.To16OfTo4(ip);
    }
  }

  /** What `processAddrList` computes: an inline comparison for one address,
      otherwise a set lookup and one set element per address */
  function AddrList(family: Family, offset: nat, list: seq<IPAddr>, excl: bool, lookup: NfSet): (r: Result<L3Out, Error>)
    ensures |list| == 1 ==> r == Ok(L3Out(SingleIPExpr(family, offset, list[0], excl), []))
    ensures |list| == 0 ==> r == Err(UnknownFamily(family))
    ensures |list| >= 2 ==>
      && r.Ok?
      && r.value.expr == ListIPExpr(family, lookup, offset, excl)
      && |r.value.elements| == |list|
      && forall i | 0 <= i < |list| :: r.value.elements[i] == SetElement(ElementKey(family, list[i].ip))
  {
    if |list| == 1 then
      Ok(L3Out(SingleIPExpr(family, offset, list[0], excl), []))
    else
      var elements := seq(|list|, i requires 0 <= i < |list| => SetElement(ElementKey(family, list[i].ip)));
      if |elements| == 0 then Err(UnknownFamily(family))
      else Ok(L3Out(ListIPExpr(family, lookup, offset, excl), elements))
  }

  /** Builds the set elements of an address list in an array, one per entry */
  method ProcessAddrList(family: Family, offset: nat, list: seq<IPAddr>, excl: bool, lookup: NfSet)
    returns (r: Result<L3Out, Error>)
    ensures r == AddrList(family, offset, list, excl, lookup)
  {
    if |list| == 1 {
      // a single entry needs no set
      return Ok(L3Out(SingleIPExpr(family, offset, list[0], excl), []));
    }
    var setElements := new SetElement[|list|](_ => SetElement([]));
    if family == FamilyIPv4 {
      for i := 0 to |list|
        invariant forall j | 0 <= j < i :: setElements[j] == SetElement(NetIP.To4(list[j].ip))
      {
        setElements[i] := SetElement(NetIP.To4(list[i].ip));
      }
    }
    if family == FamilyIPv6 {
      for i := 0 to |list|
        invariant forall j | 0 <= j < i :: setElements[j] == SetElement(NetIP.To16(list[j].ip))
      {
        setElements[i] := SetElement(NetIP.To16(list[i].ip));
      }
    }
    if setElements.Length == 0 {
      return Err(UnknownFamily(family));
    }
    assert forall j | 0 <= j < |list| :: setElements[j] == SetElement(ElementKey(family, list[j].ip));
    assert setElements[..] == seq(|list|, i requires 0 <= i < |list| => SetElement(ElementKey(family, list[i].ip)));
    return Ok(L3Out(ListIPExpr(family, lookup, offset, excl), setElements[..]));
  }

  /** What `processAddrRange` computes: an inline range comparison */
  function ProcessAddrRange(family: Family, offset: nat, low: IPAddr, high: IPAddr, excl: bool): (r: Result<L3Out, Error>)
    ensures r.Ok? && r.value.elements == []
  {
    Ok(L3Out(RangeIPExpr(family, offset, low, high, excl), []))
  }

  /** What `processVersion` computes: a match on the IP version alone */
  function ProcessVersion(version: uint32, excl: bool): (r: Result<L3Out, Error>)
    ensures r.Ok? && r.value.elements == []
  {
    Ok(L3Out(VersionExpr(version, excl), []))
  }

  /** What `createL3` returns for a rule in a table of `family` */
  function CompileL3(family: Family, rule: Rule, lookup: NfSet): (r: Result<L3Out, Error>)
    ensures rule.l3.version.Some? ==> r == Ok(L3Out(VersionExpr(rule.l3.version.value, rule.exclude), []))
    ensures rule.l3.version.None? && AddrTarget(family, rule.l3).Err? ==> r == Err(AddrTarget(family, rule.l3).error)
    ensures rule.l3.version.None? && AddrTarget(family, rule.l3).Ok? ==>
      var t := AddrTarget(family, rule.l3).value;
      && (|t.spec.list| == 1 ==> r == Ok(L3Out(SingleIPExpr(family, t.offset, t.spec.list[0], rule.exclude), [])))
      && (|t.spec.list| >= 2 ==>
            && r.Ok?
            && r.value.expr == ListIPExpr(family, lookup, t.offset, rule.exclude)
            && |r.value.elements| == |t.spec.list|
            && forall i | 0 <= i < |t.spec.list| :: r.value.elements[i].key == ElementKey(family, t.spec.list[i].ip))
      && (|t.spec.list| == 0 && t.spec.rangeFrom.Some? && t.spec.rangeTo.Some? ==>
            r == Ok(L3Out(RangeIPExpr(family, t.offset, t.spec.rangeFrom.value, t.spec.rangeTo.value, rule.exclude), [])))
      && (|t.spec.list| == 0 && (t.spec.rangeFrom.None? || t.spec.rangeTo.None?) ==> r == Err(NoAddress))
  {
    var l3 := rule.l3;
    if l3.version.Some? then ProcessVersion(l3.version.value, rule.exclude)
    else
      match AddrTarget(family, l3)
      case Err(e) => Err(e)
      case Ok(t) =>
        if |t.spec.list| != 0 then AddrList(family, t.offset, t.spec.list, rule.exclude, lookup)
        else if t.spec.rangeFrom.Some? && t.spec.rangeTo.Some? then
          ProcessAddrRange(family, t.offset, t.spec.rangeFrom.value, t.spec.rangeTo.value, rule.exclude)
        else Err(NoAddress)
  }

  /** The key type `createL3` writes into the caller's set, if it writes one */
  function KeyTypeWritten(family: Family, l3: L3Rule): (k: Option<KeyType>)
    ensures k.Some? <==> l3.version.None? && (l3.src.Some? || l3.dst.Some?) && KnownFamily(family)
    ensures k.Some? ==> k.value == if family == FamilyIPv4 then TypeIPAddr else TypeIP6Addr
  {
    if l3.version.Some? then None
    else
      match AddrTarget(family, l3)
      case Err(_) => None
      case Ok(t) => Some(t.keyType)
  }

  /** Compiles the L3 criteria of a rule, writing the key type of the caller's
      set and nothing else of it */
  method CreateL3(family: Family, rule: Rule, lookup: NfSet) returns (r: Result<L3Out, Error>)
    modifies lookup`keyType
    ensures r == CompileL3(family, rule, lookup)
    ensures lookup.keyType == KeyTypeWritten(family, rule.l3).GetOr(old(lookup.keyType))
  {
    var l3 := rule.l3;
    if l3.version.Some? {
      return ProcessVersion(l3.version.value, rule.exclude);
    }
    var target := AddrTarget(family, l3);
    if target.Err? {
      return Err(target.error);
    }
    lookup.keyType := target.value.keyType;
    var ruleAddr := target.value.spec;
    if |ruleAddr.list| != 0 {
      r := ProcessAddrList(family, target.value.offset, ruleAddr.list, rule.exclude, lookup);
      return;
    }
    if ruleAddr.rangeFrom.Some? && ruleAddr.rangeTo.Some? {
      return ProcessAddrRange(family, target.value.offset, ruleAddr.rangeFrom.value, ruleAddr.rangeTo.value, rule.exclude);
    }
    return Err(NoAddress);
  }

  /** Every key of a compiled address set is as wide as the set's key type, when
      the addresses are of the table's family */
  lemma {:induction false} ElementsFitKeyType(family: Family, rule: Rule, lookup: NfSet)
    requires rule.l3.version.None? && AddrTarget(family, rule.l3).Ok?
    requires var list := AddrTarget(family, rule.l3).value.spec.list;
      forall i | 0 <= i < |list| :: |list[i].ip| == 4 || (|list[i].ip| == 16 && (family == FamilyIPv6 || NetIP.IsV4InV6(list[i].ip)))
    ensures var r := CompileL3(family, rule, lookup);
      r.Ok? ==> forall e | e in r.value.elements :: |e.key| == AddrTarget(family, rule.l3).value.keyType.bytes
  {
    var t := AddrTarget(family, rule.l3).value;
    var r := CompileL3(family, rule, lookup);
    if r.Ok? && |t.spec.list| >= 2 {
      forall e | e in r.value.elements
        ensures |e.key| == t.keyType.bytes
      {
        var i :| 0 <= i < |r.value.elements| && r.value.elements[i] == e;
        assert e.key == ElementKey(family, t.spec.list[i].ip);
      }
    }
  }

  /** Two destination addresses in an IPv4 table: one set lookup at the IPv4
      destination offset and two 4-byte set elements */
  lemma DestinationListExample(lookup: NfSet)
    ensures var a, b := IPAddr([1, 2, 3, 4], false, None), IPAddr([2, 3, 4, 5], false, None);
      var rule := Rule(L3Rule(None, Some(IPAddrSpec([a, b], None, None)), None), false);
      CompileL3(FamilyIPv4, rule, lookup) ==
        Ok(L3Out(ListIPExpr(FamilyIPv4, lookup, 16, false), [SetElement([1, 2, 3, 4]), SetElement([2, 3, 4, 5])]))
  {
    var a, b := IPAddr([1, 2, 3, 4], false, None), IPAddr([2, 3, 4, 5], false, None);
    var rule := Rule(L3Rule(None, Some(IPAddrSpec([a, b], None, None)), None), false);
    assert AddrTarget(FamilyIPv4, rule.l3) == Ok(Target(IPAddrSpec([a, b], None, None), 16, TypeIPAddr));
    assert ElementKey(FamilyIPv4, a.ip) == [1, 2, 3, 4];
    assert ElementKey(FamilyIPv4, b.ip) == [2, 3, 4, 5];
    var r := CompileL3(FamilyIPv4, rule, lookup);
    assert r.value.elements == [SetElement([1, 2, 3, 4]), SetElement([2, 3, 4, 5])];
  }
}
