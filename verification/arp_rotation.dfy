/** The generic address formatter of the ARP dissector as it is written:
    it formats into one of three static buffers, taken in rotation, and
    returns a pointer to that buffer. The dissector formats four addresses
    before it reads any of the results, so when all four go through the
    generic formatter the fourth overwrites the buffer of the first. */
module ArpRotation {
  import opened Bytes
  import opened Printf
  import opened Arp

  /** The static state of the formatter: the three buffers and the one the
      last call wrote, or -1 before the first call (a null pointer). */
  datatype Buffers = Buffers(cur: int, slots: seq<string>)

  predicate Valid(b: Buffers) {
    -1 <= b.cur < 3 && |b.slots| == 3
  }

  /** The buffer after `cur`: 0, then 1, then 2, then 0 again. */
  function NextSlot(cur: int): (n: int)
    ensures 0 <= n < 3 && n != cur
    ensures 0 <= cur < 2 ==> n == cur + 1
  {
    if cur == 0 then 1 else if cur == 1 then 2 else 0
  }

  /** A string an address helper returns: text owned by a framework
      formatter, or a pointer into one of the three buffers. */
  datatype StrRef = Owned(s: string) | InBuffer(slot: int)

  predicate Points(b: Buffers, r: StrRef) {
    r.InBuffer? ==> 0 <= r.slot < |b.slots|
  }

  /** What the pointer shows when it is finally read. */
  function Read(b: Buffers, r: StrRef): string
    requires Points(b, r)
  {
    match r
    case Owned(s) => s
    case InBuffer(i) => b.slots[i]
  }

  /** `arpaddr_to_str` as written: the text goes into the next buffer,
      which is returned; the other two buffers keep their contents. */
  function GenericAsWritten(b: Buffers, ad: seq<byte>): (res: (Buffers, StrRef))
    requires Valid(b)
    ensures Valid(res.0) && res.0.cur == NextSlot(b.cur) && res.1 == InBuffer(res.0.cur)
    ensures res.0.slots[res.0.cur] == ArpAddrToStr(ad)
    ensures forall k :: 0 <= k < 3 && k != res.0.cur ==> res.0.slots[k] == b.slots[k]
  {
    var n := NextSlot(b.cur);
    (Buffers(n, b.slots[n := ArpAddrToStr(ad)]), InBuffer(n))
  }

  /** `arphrdaddr_to_str` / `arpproaddr_to_str` as written: the framework
      formatter for Ethernet and IPv4 addresses, the buffers otherwise. */
  function AddrAsWritten(rs: Renderers, b: Buffers, a: Addr): (res: (Buffers, StrRef))
    requires Valid(b)
    ensures Valid(res.0) && Points(res.0, res.1)
    ensures !UsesBuffer(a) ==> res == (b, Owned(AddrText(rs, a)))
    ensures UsesBuffer(a) ==> res == GenericAsWritten(b, a.octets)
  {
    if UsesBuffer(a) then GenericAsWritten(b, a.octets) else (b, Owned(AddrText(rs, a)))
  }

  /** The address goes through the generic formatter. */
  predicate UsesBuffer(a: Addr) {
    match a
    case HardwareAddr(hrd, octets) => !(hrd == ARPHRD_ETHER && |octets| == 6)
    case ProtocolAddr(pro, octets) => !(pro == ETHERTYPE_IP && |octets| == 4)
  }

  datatype Refs = Refs(sha: StrRef, spa: StrRef, tha: StrRef, tpa: StrRef)

  predicate AllPoint(b: Buffers, r: Refs) {
    Points(b, r.sha) && Points(b, r.spa) && Points(b, r.tha) && Points(b, r.tpa)
  }

  /** The four helper calls of `dissect_arp`, in its order, before any of
      the results is read. */
  function AddressesAsWritten(rs: Renderers, b: Buffers, a: Addrs): (res: (Buffers, Refs))
    requires Valid(b)
    ensures Valid(res.0) && AllPoint(res.0, res.1)
  {
    var (b1, sha) := AddrAsWritten(rs, b, a.sha);
    var (b2, spa) := AddrAsWritten(rs, b1, a.spa);
    var (b3, tha) := AddrAsWritten(rs, b2, a.tha);
    var (b4, tpa) := AddrAsWritten(rs, b3, a.tpa);
    (b4, Refs(sha, spa, tha, tpa))
  }

  /** The info column of `dissect_arp` as written, reading the four
      pointers once all four helpers have run. */
  function InfoAsWritten(rs: Renderers, b: Buffers, pd: seq<byte>, offset: int): string
    requires Valid(b) && CapturedWhole(pd, offset)
  {
    var h := DecodeHeader(pd, offset);
    var (b', r) := AddressesAsWritten(rs, b, ExtractAddresses(pd, h, AddressLayout(h, offset)));
    if h.op == ARPOP_REQUEST then "Who has " + Read(b', r.tpa) + "?  Tell " + Read(b', r.spa)
    else if h.op == ARPOP_REPLY then Read(b', r.spa) + " is at " + Read(b', r.sha)
    else if h.op == ARPOP_RREQUEST then "Who is " + Read(b', r.tha) + "?  Tell " + Read(b', r.sha)
    else if h.op == ARPOP_RREPLY then Read(b', r.sha) + " is at " + Read(b', r.spa)
    else InfoText(rs, UnknownOpcode(h.op))
  }

  /** Three calls in a row write three different buffers, so up to three
      generic addresses can be held at once. */
  lemma ThreeCallsDistinct(b: Buffers, x: seq<byte>, y: seq<byte>, z: seq<byte>)
    requires Valid(b)
    ensures
      var (b1, rx) := GenericAsWritten(b, x);
      var (b2, ry) := GenericAsWritten(b1, y);
      var (b3, rz) := GenericAsWritten(b2, z);
      && rx.slot != ry.slot && ry.slot != rz.slot && rx.slot != rz.slot
      && Read(b3, rx) == ArpAddrToStr(x) && Read(b3, ry) == ArpAddrToStr(y) && Read(b3, rz) == ArpAddrToStr(z)
  {
  }

  /** The fourth call writes the buffer of the first. */
  lemma FourthCallReusesFirst(b: Buffers, w: seq<byte>, x: seq<byte>, y: seq<byte>, z: seq<byte>)
    requires Valid(b)
    ensures
      var (b1, rw) := GenericAsWritten(b, w);
      var (b2, rx) := GenericAsWritten(b1, x);
      var (b3, ry) := GenericAsWritten(b2, y);
      var (b4, rz) := GenericAsWritten(b3, z);
      rz.slot == rw.slot && Read(b4, rw) == ArpAddrToStr(z)
  {
  }

  /** When none of the four addresses is an Ethernet or IPv4 address, the
      sender hardware address shows the text of the target protocol
      address, whatever state the buffers started in. */
  lemma SenderHardwareShowsTargetProtocol(rs: Renderers, b: Buffers, a: Addrs)
    requires Valid(b)
    requires UsesBuffer(a.sha) && UsesBuffer(a.spa) && UsesBuffer(a.tha) && UsesBuffer(a.tpa)
    ensures
      var (b', r) := AddressesAsWritten(rs, b, a);
      Read(b', r.sha) == ArpAddrToStr(a.tpa.octets)
  {
    FourthCallReusesFirst(b, a.sha.octets, a.spa.octets, a.tha.octets, a.tpa.octets);
  }

  /** A reply with one-octet addresses of hardware type 6 and protocol type
      0x0101: sender AA/01, target BB/02. */
  const REPLY: seq<byte> := [0, 6, 1, 1, 1, 1, 0, 2, 0xAA, 0x01, 0xBB, 0x02]

  lemma OneOctetTexts()
    ensures ArpAddrToStr([0x01]) == "01" && ArpAddrToStr([0x02]) == "02" && ArpAddrToStr([0xAA]) == "AA"
  {
    assert HexPairs([0x01]) == [UpperHexDigit(0), UpperHexDigit(1)] + HexPairs([]);
    assert HexPairs([0x02]) == [UpperHexDigit(0), UpperHexDigit(2)] + HexPairs([]);
    assert HexPairs([0xAA]) == [UpperHexDigit(10), UpperHexDigit(10)] + HexPairs([]);
  }

  /** As written, the reply says the sender's protocol address 01 is at
      02, the target's protocol address, instead of at AA. */
  lemma ReplyQuotesWrongAddress(rs: Renderers, b: Buffers)
    requires Valid(b)
    ensures CapturedWhole(REPLY, 0)
    ensures InfoAsWritten(rs, b, REPLY, 0) == "01 is at 02"
  {
    var h := DecodeHeader(REPLY, 0);
    assert h == ArpHeader(6, 0x0101, 1, 1, ARPOP_REPLY);
    var a := ExtractAddresses(REPLY, h, AddressLayout(h, 0));
    assert a == Addrs(HardwareAddr(6, [0xAA]), ProtocolAddr(0x0101, [0x01]),
                      HardwareAddr(6, [0xBB]), ProtocolAddr(0x0101, [0x02]));
    SenderHardwareShowsTargetProtocol(rs, b, a);
    OneOctetTexts();
  }

  /** The model of the dissector renders each address on its own, so the
      same reply says 01 is at AA. */
  lemma ReplyQuotesSenderAddress(rs: Renderers)
    ensures CapturedWhole(REPLY, 0)
    ensures
      var out := Dissect(REPLY, 0, View(false, true, false));
      InfoText(rs, out.info.value) == "01 is at AA"
  {
    var h := DecodeHeader(REPLY, 0);
    assert h == ArpHeader(6, 0x0101, 1, 1, ARPOP_REPLY);
    var a := ExtractAddresses(REPLY, h, AddressLayout(h, 0));
    assert a == Addrs(HardwareAddr(6, [0xAA]), ProtocolAddr(0x0101, [0x01]),
                      HardwareAddr(6, [0xBB]), ProtocolAddr(0x0101, [0x02]));
    OneOctetTexts();
  }
}
