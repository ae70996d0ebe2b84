/** The ARP/RARP dissector: the fixed header of section "Packet format" of
    RFC 826 (with the reverse opcodes of RFC 903), the four variable-length
    addresses that follow it, their display text, the protocol and info
    column text and the items added to the protocol tree. */
module Arp {
  import opened Optional
  import opened Bytes
  import opened Printf
  import opened ValueStrings
  import opened Tree
  import opened Ascii

  /** Hardware type of 10 Mb/s Ethernet. */
  const ARPHRD_ETHER: int := 1
  /** Protocol type of IPv4 (the Ethernet type 0x0800). */
  const ETHERTYPE_IP: int := 0x0800
  /** Opcodes: RFC 826 defines request and reply, RFC 903 the reverse pair. */
  const ARPOP_REQUEST: int := 1
  const ARPOP_REPLY: int := 2
  const ARPOP_RREQUEST: int := 3
  const ARPOP_RREPLY: int := 4

  /** Hex digits the generic formatter writes before eliding the rest. */
  const MAX_ADDR_STR_LEN: int := 16
  /** Octets the generic formatter shows: two digits each. */
  const MAX_SHOWN_OCTETS: int := MAX_ADDR_STR_LEN / 2

  /** Offsets of the fixed header fields. */
  const AR_HRD: int := 0
  const AR_PRO: int := 2
  const AR_HLN: int := 4
  const AR_PLN: int := 5
  const AR_OP: int := 6
  const FIXED_HEADER_LEN: int := 8


  const OP_VALS: seq<ValueString> := [
    ValueString(ARPOP_REQUEST, "ARP request"),
    ValueString(ARPOP_REPLY, "ARP reply"),
    ValueString(ARPOP_RREQUEST, "RARP request"),
    ValueString(ARPOP_RREPLY, "RARP reply")
  ]

  const HRD_VALS: seq<ValueString> := [
    ValueString(0, "NET/ROM pseudo"),
    ValueString(1, "Ethernet"),
    ValueString(2, "Experimental Ethernet"),
    ValueString(3, "AX.25"),
    ValueString(4, "ProNET"),
    ValueString(5, "Chaos"),
    ValueString(6, "IEEE 802"),
    ValueString(7, "ARCNET"),
    ValueString(8, "Hyperchannel"),
    ValueString(9, "Lanstar"),
    ValueString(10, "Autonet Short Address"),
    ValueString(11, "Localtalk"),
    ValueString(12, "LocalNet"),
    ValueString(13, "Ultra link"),
    ValueString(14, "SMDS"),
    ValueString(15, "Frame Relay DLCI"),
    ValueString(16, "ATM"),
    ValueString(17, "HDLC"),
    ValueString(18, "Fibre Channel"),
    ValueString(19, "ATM (RFC 2225)"),
    ValueString(20, "Serial Line"),
    ValueString(21, "ATM"),
    ValueString(22, "MIL-STD-188-220"),
    ValueString(23, "Metricom STRIP"),
    ValueString(24, "IEEE 1394.1995"),
    ValueString(25, "MAPOS"),
    ValueString(26, "Twinaxial"),
    ValueString(27, "EUI-64")
  ]

  /** The framework's own formatters, which this model does not define:
      `ether_to_str` (six octets), `ip_to_str` (four octets) and
      `ethertype_to_str` (a protocol type, with its own fallback text). */
  datatype Renderers = Renderers(etherToStr: seq<byte> -> string,
                                 ipToStr: seq<byte> -> string,
                                 ethertypeToStr: int -> string)

  function Min(a: int, b: int): int {
    if a <= b then a else b
  }

  // ---------------------------------------------------------------------
  // Address text

  /** Two uppercase hex digits per octet, high nibble first. */
  function HexPairs(ad: seq<byte>): (r: string)
    ensures |r| == 2 * |ad|
    ensures forall i :: 0 <= i < |r| ==> IsUpperHexDigit(r[i])
    ensures UnHexPairs(r) == ad
  {
    if ad == [] then []
    else
      var r := [UpperHexDigit(ad[0] / 16), UpperHexDigit(ad[0] % 16)] + HexPairs(ad[1..]);
      assert r[2..] == HexPairs(ad[1..]);
      r
  }

  /** Reads a run of hex digit pairs back into octets. */
  function UnHexPairs(s: string): seq<byte>
  {
    if |s| < 2 then [] else [HexValue(s[0]) * 16 + HexValue(s[1])] + UnHexPairs(s[2..])
  }

  lemma {:induction false} HexPairsAppend(a: seq<byte>, b: seq<byte>)
    ensures HexPairs(a + b) == HexPairs(a) + HexPairs(b)
  {
    if a != [] {
      assert (a + b)[1..] == a[1..] + b;
      HexPairsAppend(a[1..], b);
    } else {
      assert a + b == b;
    }
  }

  /** `arpaddr_to_str`: the generic rendering of an address whose type the
      dissector does not know. The first `min(n, 8)` octets appear as
      uppercase hex pairs (which read back as those octets), followed by
      "..." exactly when octets were left out; never more than 19
      characters, and nothing at all for an empty address. */
  function ArpAddrToStr(ad: seq<byte>): (r: string)
    ensures |r| == 2 * Min(|ad|, MAX_SHOWN_OCTETS) + (if |ad| > MAX_SHOWN_OCTETS then 3 else 0)
    ensures |r| <= MAX_ADDR_STR_LEN + 3
    ensures ad == [] ==> r == []
    ensures forall i :: 0 <= i < 2 * Min(|ad|, MAX_SHOWN_OCTETS) ==> IsUpperHexDigit(r[i])
    ensures UnHexPairs(r[..2 * Min(|ad|, MAX_SHOWN_OCTETS)]) == ad[..Min(|ad|, MAX_SHOWN_OCTETS)]
    ensures r[2 * Min(|ad|, MAX_SHOWN_OCTETS)..] == (if |ad| > MAX_SHOWN_OCTETS then "..." else "")
  {
    var shown := Min(|ad|, MAX_SHOWN_OCTETS);
    var digits := HexPairs(ad[..shown]);
    var r := digits + (if |ad| > shown then "..." else "");
    assert r[..2 * shown] == digits;
    r
  }

  /** The generic rendering loses nothing for addresses of up to eight
      octets: two such addresses render alike only if they are equal. */
  lemma ArpAddrToStrInjective(a: seq<byte>, b: seq<byte>)
    requires |a| <= MAX_SHOWN_OCTETS && |b| <= MAX_SHOWN_OCTETS
    requires ArpAddrToStr(a) == ArpAddrToStr(b)
    ensures a == b
  {
    assert a[..|a|] == a && b[..|b|] == b;
  }

  /** The loop of `arpaddr_to_str` as written: a budget of 16 digits spent
      two at a time, then the ellipsis if octets remain. It produces the
      generic rendering. */
  method FormatArpAddr(ad: seq<byte>) returns (r: string)
    ensures r == ArpAddrToStr(ad)
  {
    r := "";
    var len := MAX_ADDR_STR_LEN;
    var adLen := |ad|;
    var i := 0;
    while adLen > 0 && len > 0
      invariant 0 <= i <= |ad| && adLen == |ad| - i
      invariant len == MAX_ADDR_STR_LEN - 2 * i && 0 <= len
      invariant r == HexPairs(ad[..i])
    {
      HexPairsAppend(ad[..i], [ad[i]]);
      HexPairsOne(ad[i]);
      assert ad[..i + 1] == ad[..i] + [ad[i]];
      r := r + [UpperHexDigit(ad[i] / 16), UpperHexDigit(ad[i] % 16)];
      len := len - 2;
      i := i + 1;
      adLen := adLen - 1;
    }
    assert i == Min(|ad|, MAX_SHOWN_OCTETS);
    ArpAddrToStrParts(ad);
    if adLen != 0 {
      r := r + "...";
    } else {
      assert r == r + "";
    }
  }

  lemma HexPairsOne(b: byte)
    ensures HexPairs([b]) == [UpperHexDigit(b / 16), UpperHexDigit(b % 16)]
  {
    assert [b][1..] == [];
  }

  lemma ArpAddrToStrParts(ad: seq<byte>)
    ensures ArpAddrToStr(ad) == HexPairs(ad[..Min(|ad|, MAX_SHOWN_OCTETS)]) + (if |ad| > MAX_SHOWN_OCTETS then "..." else "")
  {
  }

  /** `arphrdaddr_to_str`: Ethernet text for a six-octet Ethernet address,
      the generic rendering otherwise. */
  function HrdAddrToStr(rs: Renderers, ad: seq<byte>, hrd: int): (r: string)
    ensures hrd == ARPHRD_ETHER && |ad| == 6 ==> r == rs.etherToStr(ad)
    ensures !(hrd == ARPHRD_ETHER && |ad| == 6) ==> r == ArpAddrToStr(ad)
  {
    if hrd == ARPHRD_ETHER && |ad| == 6 then rs.etherToStr(ad) else ArpAddrToStr(ad)
  }

  /** `arpproaddr_to_str`: dotted IPv4 text for a four-octet IPv4 address,
      the generic rendering otherwise. */
  function ProAddrToStr(rs: Renderers, ad: seq<byte>, pro: int): (r: string)
    ensures pro == ETHERTYPE_IP && |ad| == 4 ==> r == rs.ipToStr(ad)
    ensures !(pro == ETHERTYPE_IP && |ad| == 4) ==> r == ArpAddrToStr(ad)
  {
    if pro == ETHERTYPE_IP && |ad| == 4 then rs.ipToStr(ad) else ArpAddrToStr(ad)
  }

  // ---------------------------------------------------------------------
  // Header and address layout

  datatype ArpHeader = ArpHeader(hrd: int, pro: int, hln: int, pln: int, op: int)

  predicate WellFormed(h: ArpHeader) {
    0 <= h.hrd < U16_LIMIT && 0 <= h.pro < U16_LIMIT && 0 <= h.op < U16_LIMIT
    && 0 <= h.hln < 256 && 0 <= h.pln < 256
  }

  /** Bytes from the start of the header to the end of the target protocol
      address: the span the dissector gives its top tree item. */
  function TotalLength(h: ArpHeader): int {
    FIXED_HEADER_LEN + 2 * h.hln + 2 * h.pln
  }

  /** The header is fully captured and so are the addresses its length
      octets announce. The dissector assumes this without checking it. */
  predicate CapturedWhole(pd: seq<byte>, offset: int) {
    0 <= offset && offset + FIXED_HEADER_LEN <= |pd|
    && offset + FIXED_HEADER_LEN + 2 * (pd[offset + AR_HLN] as int) + 2 * (pd[offset + AR_PLN] as int) <= |pd|
  }

  /** The five header fields: 16-bit big-endian values at offsets 0, 2 and
      6, single octets at offsets 4 and 5. */
  function DecodeHeader(pd: seq<byte>, offset: int): (h: ArpHeader)
    requires 0 <= offset && offset + FIXED_HEADER_LEN <= |pd|
    ensures WellFormed(h)
    ensures h.hrd == U16(pd, offset + AR_HRD) && h.pro == U16(pd, offset + AR_PRO) && h.op == U16(pd, offset + AR_OP)
    ensures h.hln == pd[offset + AR_HLN] as int && h.pln == pd[offset + AR_PLN] as int
  {
    ArpHeader(U16(pd, offset + AR_HRD), U16(pd, offset + AR_PRO),
              pd[offset + AR_HLN] as int, pd[offset + AR_PLN] as int, U16(pd, offset + AR_OP))
  }

  /** The eight header octets of `h` in wire order. */
  function EncodeHeader(h: ArpHeader): (s: seq<byte>)
    requires WellFormed(h)
    ensures |s| == FIXED_HEADER_LEN
  {
    BE16(h.hrd) + BE16(h.pro) + [h.hln as byte, h.pln as byte] + BE16(h.op)
  }

  /** Decoding an encoded header, wherever it sits, gives the header back. */
  lemma DecodeEncodedHeader(pre: seq<byte>, h: ArpHeader, post: seq<byte>)
    requires WellFormed(h)
    ensures DecodeHeader(pre + EncodeHeader(h) + post, |pre|) == h
  {
    var pd := pre + EncodeHeader(h) + post;
    assert pd == pre + BE16(h.hrd) + (BE16(h.pro) + [h.hln as byte, h.pln as byte] + BE16(h.op) + post);
    U16OfBE16(pre, h.hrd, BE16(h.pro) + [h.hln as byte, h.pln as byte] + BE16(h.op) + post);
    assert pd == (pre + BE16(h.hrd)) + BE16(h.pro) + ([h.hln as byte, h.pln as byte] + BE16(h.op) + post);
    U16OfBE16(pre + BE16(h.hrd), h.pro, [h.hln as byte, h.pln as byte] + BE16(h.op) + post);
    assert pd == (pre + BE16(h.hrd) + BE16(h.pro) + [h.hln as byte, h.pln as byte]) + BE16(h.op) + post;
    U16OfBE16(pre + BE16(h.hrd) + BE16(h.pro) + [h.hln as byte, h.pln as byte], h.op, post);
  }

  /** Where the four addresses start. */
  datatype Layout = Layout(sha: int, spa: int, tha: int, tpa: int)

  /** The addresses follow the fixed header back to back, in the order
      sender hardware, sender protocol, target hardware, target protocol. */
  function AddressLayout(h: ArpHeader, offset: int): (l: Layout)
    ensures l.sha == offset + FIXED_HEADER_LEN
    ensures l.spa == l.sha + h.hln && l.tha == l.spa + h.pln && l.tpa == l.tha + h.hln
    ensures l.tpa + h.pln == offset + TotalLength(h)
  {
    var sha := offset + FIXED_HEADER_LEN;
    var spa := sha + h.hln;
    var tha := spa + h.pln;
    Layout(sha, spa, tha, tha + h.hln)
  }

  /** An address as the message carries it, tagged with the type that
      decides how it is shown: hardware addresses by the hardware type,
      protocol addresses by the protocol type. */
  datatype Addr =
    | HardwareAddr(hrd: int, octets: seq<byte>)
    | ProtocolAddr(pro: int, octets: seq<byte>)

  /** The display text of an address. */
  function AddrText(rs: Renderers, a: Addr): string {
    match a
    case HardwareAddr(hrd, octets) => HrdAddrToStr(rs, octets, hrd)
    case ProtocolAddr(pro, octets) => ProAddrToStr(rs, octets, pro)
  }

  datatype Addrs = Addrs(sha: Addr, spa: Addr, tha: Addr, tpa: Addr)

  /** The four addresses at the places the layout gives them. */
  function ExtractAddresses(pd: seq<byte>, h: ArpHeader, l: Layout): (a: Addrs)
    requires WellFormed(h) && 0 <= l.sha && l.tpa + h.pln <= |pd|
    requires l.spa == l.sha + h.hln && l.tha == l.spa + h.pln && l.tpa == l.tha + h.hln
    ensures a.sha.HardwareAddr? && a.tha.HardwareAddr? && a.spa.ProtocolAddr? && a.tpa.ProtocolAddr?
    ensures a.sha.hrd == h.hrd && a.tha.hrd == h.hrd && a.spa.pro == h.pro && a.tpa.pro == h.pro
    ensures |a.sha.octets| == h.hln && |a.tha.octets| == h.hln
    ensures |a.spa.octets| == h.pln && |a.tpa.octets| == h.pln
    ensures a.sha.octets + a.spa.octets + a.tha.octets + a.tpa.octets == pd[l.sha..l.tpa + h.pln]
  {
    assert pd[l.sha..l.tpa + h.pln] == pd[l.sha..l.spa] + pd[l.spa..l.tha] + pd[l.tha..l.tpa] + pd[l.tpa..l.tpa + h.pln];
    Addrs(HardwareAddr(h.hrd, pd[l.sha..l.sha + h.hln]),
          ProtocolAddr(h.pro, pd[l.spa..l.spa + h.pln]),
          HardwareAddr(h.hrd, pd[l.tha..l.tha + h.hln]),
          ProtocolAddr(h.pro, pd[l.tpa..l.tpa + h.pln]))
  }

  // ---------------------------------------------------------------------
  // Column text

  /** The protocol column: the opcode's name when it has one, else "ARP". */
  function ProtocolText(op: int): string {
    MatchStrval(op, OP_VALS).GetOr("ARP")
  }

  /** The opcode table names exactly the opcodes 1 to 4, in order. */
  lemma {:induction false} OpcodeName(op: int)
    ensures MatchStrval(op, OP_VALS) == if ARPOP_REQUEST <= op <= ARPOP_RREPLY then Some(OP_VALS[op - 1].text) else None
  {
    var v := OP_VALS;
    assert MatchStrval(op, v) == if op == 1 then Some(v[0].text) else MatchStrval(op, v[1..]);
    assert MatchStrval(op, v[1..]) == if op == 2 then Some(v[1].text) else MatchStrval(op, v[2..]);
    assert MatchStrval(op, v[2..]) == if op == 3 then Some(v[2].text) else MatchStrval(op, v[3..]);
    assert MatchStrval(op, v[3..]) == if op == 4 then Some(v[3].text) else MatchStrval(op, v[4..]);
    assert v[4..] == [];
  }

  /** The protocol column names the four opcodes of the table and falls
      back to "ARP" for every other value. */
  lemma ProtocolTextByOpcode(op: int)
    ensures op == ARPOP_REQUEST ==> ProtocolText(op) == "ARP request"
    ensures op == ARPOP_REPLY ==> ProtocolText(op) == "ARP reply"
    ensures op == ARPOP_RREQUEST ==> ProtocolText(op) == "RARP request"
    ensures op == ARPOP_RREPLY ==> ProtocolText(op) == "RARP reply"
    ensures !(ARPOP_REQUEST <= op <= ARPOP_RREPLY) ==> ProtocolText(op) == "ARP"
  {
    OpcodeName(op);
  }

  /** The sentence of the info column: which sentence, and the addresses it
      quotes; `InfoText` renders it. */
  datatype Info =
    | WhoHas(target: Addr, teller: Addr)
    | IsAt(owner: Addr, holder: Addr)
    | WhoIs(target: Addr, teller: Addr)
    | UnknownOpcode(op: int)

  /** The info column, chosen by the opcode: a request asks for the target
      protocol address on behalf of the sender's, a reply gives the sender
      protocol address's hardware address, the reverse pair the other way
      round, and any other opcode is reported by value. */
  function InfoFor(op: int, a: Addrs): (i: Info)
    ensures op == ARPOP_REQUEST <==> i == WhoHas(a.tpa, a.spa)
    ensures op == ARPOP_REPLY ==> i == IsAt(a.spa, a.sha)
    ensures op == ARPOP_RREQUEST <==> i == WhoIs(a.tha, a.sha)
    ensures op == ARPOP_RREPLY ==> i == IsAt(a.sha, a.spa)
    ensures i.UnknownOpcode? <==> !(ARPOP_REQUEST <= op <= ARPOP_RREPLY)
    ensures i.UnknownOpcode? ==> i.op == op
  {
    if op == ARPOP_REQUEST then WhoHas(a.tpa, a.spa)
    else if op == ARPOP_REPLY then IsAt(a.spa, a.sha)
    else if op == ARPOP_RREQUEST then WhoIs(a.tha, a.sha)
    else if op == ARPOP_RREPLY then IsAt(a.sha, a.spa)
    else UnknownOpcode(op)
  }

  predicate Printable(i: Info) {
    i.UnknownOpcode? ==> 0 <= i.op < U16_LIMIT
  }

  /** The info column text of a sentence. An unknown opcode is written as
      four hex digits that read back as the opcode. */
  function InfoText(rs: Renderers, i: Info): (r: string)
    requires Printable(i)
    ensures i.WhoHas? ==> HasPrefix(r, "Who has ") && HasSuffix(r, "?  Tell " + AddrText(rs, i.teller))
    ensures i.WhoHas? ==>
      |r| == 16 + |AddrText(rs, i.target)| + |AddrText(rs, i.teller)| && r[8..8 + |AddrText(rs, i.target)|] == AddrText(rs, i.target)
    ensures i.WhoIs? ==> HasPrefix(r, "Who is ") && HasSuffix(r, "?  Tell " + AddrText(rs, i.teller))
    ensures i.WhoIs? ==>
      |r| == 15 + |AddrText(rs, i.target)| + |AddrText(rs, i.teller)| && r[7..7 + |AddrText(rs, i.target)|] == AddrText(rs, i.target)
    ensures i.IsAt? ==> HasPrefix(r, AddrText(rs, i.owner) + " is at ") && HasSuffix(r, AddrText(rs, i.holder))
    ensures i.IsAt? ==> |r| == |AddrText(rs, i.owner)| + 7 + |AddrText(rs, i.holder)|
    ensures i.UnknownOpcode? ==> |r| == 25 && HasPrefix(r, "Unknown ARP opcode 0x") && ParseHex(r[21..]) == i.op
  {
    match i
    case WhoHas(target, teller) =>
      Framed("Who has ", AddrText(rs, target), "?  Tell ", AddrText(rs, teller));
      "Who has " + AddrText(rs, target) + "?  Tell " + AddrText(rs, teller)
    case IsAt(owner, holder) =>
      Framed("", AddrText(rs, owner), " is at ", AddrText(rs, holder));
      assert "" + AddrText(rs, owner) == AddrText(rs, owner);
      AddrText(rs, owner) + " is at " + AddrText(rs, holder)
    case WhoIs(target, teller) =>
      Framed("Who is ", AddrText(rs, target), "?  Tell ", AddrText(rs, teller));
      "Who is " + AddrText(rs, target) + "?  Tell " + AddrText(rs, teller)
    case UnknownOpcode(op) =>
      var r := "Unknown ARP opcode 0x" + Hex04(op);
      assert r[21..] == Hex04(op);
      r
  }

  /** A text framed by three fixed strings: its length, where the framed
      text sits, and how it starts and ends. */
  lemma Framed(p: string, x: string, m: string, y: string)
    ensures |p + x + m + y| == |p| + |x| + |m| + |y|
    ensures (p + x + m + y)[|p|..|p| + |x|] == x
    ensures HasPrefix(p + x + m + y, p) && HasPrefix(p + x + m + y, p + x + m)
    ensures HasSuffix(p + x + m + y, m + y) && HasSuffix(p + x + m + y, y)
  {
    var s := p + x + m + y;
    assert s[..|p|] == p;
    assert s[..|p + x + m|] == p + x + m;
    assert s[|s| - |m + y|..] == m + y;
    assert s[|s| - |y|..] == y;
  }

  /** Two texts in the same frame whose first framed parts are as long as
      each other are equal exactly when both framed parts are. */
  lemma {:induction false} FramedInjective(p: string, x: string, m: string, y: string, x': string, y': string)
    requires |x| == |x'|
    ensures p + x + m + y == p + x' + m + y' <==> x == x' && y == y'
  {
    if p + x + m + y == p + x' + m + y' {
      Framed(p, x, m, y);
      Framed(p, x', m, y');
      var s := p + x + m + y;
      assert s[|s| - |y|..] == y;
      assert s[|s| - |y'|..] == y';
    }
  }

  /** The sentences can be read back: two request sentences whose quoted
      targets are as long as each other read alike exactly when they quote
      the same texts, and a request never reads like a RARP request. */
  lemma {:induction false} InfoTextReadsBack(rs: Renderers, i: Info, j: Info)
    requires i.WhoHas? && (j.WhoHas? || j.WhoIs?)
    requires |AddrText(rs, i.target)| == |AddrText(rs, j.target)|
    ensures j.WhoHas? ==>
      (InfoText(rs, i) == InfoText(rs, j) <==>
         AddrText(rs, i.target) == AddrText(rs, j.target) && AddrText(rs, i.teller) == AddrText(rs, j.teller))
    ensures j.WhoIs? ==> InfoText(rs, i) != InfoText(rs, j)
  {
    if j.WhoHas? {
      FramedInjective("Who has ", AddrText(rs, i.target), "?  Tell ", AddrText(rs, i.teller),
                      AddrText(rs, j.target), AddrText(rs, j.teller));
    } else {
      assert InfoText(rs, i)[4] != InfoText(rs, j)[4];
    }
  }

  // ---------------------------------------------------------------------
  // Tree lines

  /** Which of the four addresses an address line shows. */
  datatype Role = SenderHardware | SenderProtocol | TargetHardware | TargetProtocol

  function Caption(role: Role): string {
    match role
    case SenderHardware => "Sender hardware address"
    case SenderProtocol => "Sender protocol address"
    case TargetHardware => "Target hardware address"
    case TargetProtocol => "Target protocol address"
  }

  /** The line of a tree item, kept as the decoded value it shows;
      `LineText` renders it. */
  datatype Line =
    | Summary(op: int)
    | HardwareType(hrd: int)
    | ProtocolType(pro: int)
    | HardwareSize(hln: int)
    | ProtocolSize(pln: int)
    | Opcode(op: int)
    | AddressLine(role: Role, addr: Addr)

  predicate Showable(line: Line) {
    match line
    case Summary(op) => 0 <= op < U16_LIMIT
    case HardwareType(hrd) => 0 <= hrd < U16_LIMIT
    case Opcode(op) => 0 <= op < U16_LIMIT
    case HardwareSize(n) => 0 <= n
    case ProtocolSize(n) => 0 <= n
    case _ => true
  }

  /** The text of the top item: the opcode's name, or its value in four
      hex digits when it has none. */
  function SummaryText(op: int): (r: string)
    requires 0 <= op < U16_LIMIT
    ensures MatchStrval(op, OP_VALS).Some? ==> r == MatchStrval(op, OP_VALS).value
    ensures MatchStrval(op, OP_VALS).None? ==>
      |r| == 27 && HasPrefix(r, "Unknown ARP (opcode 0x") && ParseHex(r[22..26]) == op && r[26] == ')'
  {
    match MatchStrval(op, OP_VALS)
    case Some(s) => s
    case None =>
      var r := "Unknown ARP (opcode 0x" + Hex04(op) + ")";
      assert r[22..26] == Hex04(op);
      r
  }

  /** The value part of the opcode line: the opcode in four hex digits,
      then its name or "Unknown" in parentheses. */
  function OpcodeText(op: int): (r: string)
    requires 0 <= op < U16_LIMIT
    ensures |r| >= 9 && HasPrefix(r, "0x") && ParseHex(r[2..6]) == op && r[6..8] == " ("
    ensures r[8..] == MatchStrval(op, OP_VALS).GetOr("Unknown") + ")"
  {
    var r := "0x" + Hex04(op) + " (" + MatchStrval(op, OP_VALS).GetOr("Unknown") + ")";
    assert r[2..6] == Hex04(op);
    r
  }

  /** The text of a tree line, as the dissector formats it. */
  function LineText(rs: Renderers, line: Line): string
    requires Showable(line)
  {
    match line
    case Summary(op) => SummaryText(op)
    case HardwareType(hrd) => "Hardware type: " + ValToStr(hrd, HRD_VALS)
    case ProtocolType(pro) => "Protocol type: " + rs.ethertypeToStr(pro)
    case HardwareSize(n) => "Hardware size: " + Decimal(n)
    case ProtocolSize(n) => "Protocol size: " + Decimal(n)
    case Opcode(op) => "Opcode: " + OpcodeText(op)
    case AddressLine(role, addr) => Caption(role) + ": " + AddrText(rs, addr)
  }

  /** The two size lines print their octet in decimal, which reads back as
      the size. */
  lemma SizeLinesReadBack(rs: Renderers, n: nat)
    ensures HasPrefix(LineText(rs, HardwareSize(n)), "Hardware size: ")
    ensures ParseDecimal(LineText(rs, HardwareSize(n))[15..]) == n
    ensures HasPrefix(LineText(rs, ProtocolSize(n)), "Protocol size: ")
    ensures ParseDecimal(LineText(rs, ProtocolSize(n))[15..]) == n
  {
    DecimalRoundTrip(n);
    assert LineText(rs, HardwareSize(n))[15..] == Decimal(n);
    assert LineText(rs, ProtocolSize(n))[15..] == Decimal(n);
  }

  // ---------------------------------------------------------------------
  // The dissector

  /** The address a line of the given role shows. */
  function AddrOf(a: Addrs, role: Role): Addr {
    match role
    case SenderHardware => a.sha
    case SenderProtocol => a.spa
    case TargetHardware => a.tha
    case TargetProtocol => a.tpa
  }

  /** The nine subtree lines, in the order they are added: the five header
      fields, then the four addresses. */
  function Lines(h: ArpHeader, a: Addrs): (t: seq<Line>)
    ensures |t| == 9
    ensures t[..5] == [HardwareType(h.hrd), ProtocolType(h.pro), HardwareSize(h.hln), ProtocolSize(h.pln), Opcode(h.op)]
    ensures forall k :: 5 <= k < 9 ==> t[k].AddressLine? && t[k].addr == AddrOf(a, t[k].role)
    ensures t[5].role == SenderHardware && t[6].role == SenderProtocol
    ensures t[7].role == TargetHardware && t[8].role == TargetProtocol
  {
    [ HardwareType(h.hrd), ProtocolType(h.pro), HardwareSize(h.hln), ProtocolSize(h.pln), Opcode(h.op),
      AddressLine(SenderHardware, a.sha), AddressLine(SenderProtocol, a.spa),
      AddressLine(TargetHardware, a.tha), AddressLine(TargetProtocol, a.tpa) ]
  }

  /** The nine subtree items: each line over the octets of its field, the
      addresses where the layout puts them. */
  function Place(h: ArpHeader, offset: int, t: seq<Line>): seq<Item<Line>>
    requires |t| == 9
  {
    var l := AddressLayout(h, offset);
    [ Item(offset + AR_HRD, 2, t[0]),
      Item(offset + AR_PRO, 2, t[1]),
      Item(offset + AR_HLN, 1, t[2]),
      Item(offset + AR_PLN, 1, t[3]),
      Item(offset + AR_OP, 2, t[4]),
      Item(l.sha, h.hln, t[5]),
      Item(l.spa, h.pln, t[6]),
      Item(l.tha, h.hln, t[7]),
      Item(l.tpa, h.pln, t[8]) ]
  }

  /** The nine subtree items tile the span of the top item: five header
      fields over the first eight octets, then the four addresses. */
  lemma PlaceTiles(h: ArpHeader, offset: int, t: seq<Line>)
    requires WellFormed(h) && |t| == 9
    ensures |Place(h, offset, t)| == 9
    ensures Tiles(Place(h, offset, t), offset, offset + TotalLength(h))
  {
    var f := Place(h, offset, t);
  }

  /** Which outputs the caller asked for: `check_col` on the two columns
      and whether a protocol tree is being built. */
  datatype View = View(protocolColumn: bool, infoColumn: bool, tree: bool)

  datatype ArpTree = ArpTree(top: Item<Line>, fields: seq<Item<Line>>)

  datatype ArpOutput = ArpOutput(protocol: Option<string>, info: Option<Info>, tree: Option<ArpTree>)

  /** `dissect_arp`. Each output is produced exactly when the caller asked
      for it and can be rendered; the top item starts at the header and
      lies inside the captured bytes, and its nine subtree items cover its
      span back to back. */
  function Dissect(pd: seq<byte>, offset: int, view: View): (out: ArpOutput)
    requires CapturedWhole(pd, offset)
    ensures out.protocol.Some? <==> view.protocolColumn
    ensures out.info.Some? <==> view.infoColumn
    ensures out.info.Some? ==> Printable(out.info.value)
    ensures out.tree.Some? <==> view.tree
    ensures out.tree.Some? ==>
      && out.tree.value.top.offset == offset
      && out.tree.value.top.End() <= |pd|
      && Showable(out.tree.value.top.text)
      && |out.tree.value.fields| == 9
      && Tiles(out.tree.value.fields, offset, out.tree.value.top.End())
      && (forall i :: 0 <= i < 9 ==> Showable(out.tree.value.fields[i].text))
  {
    var h := DecodeHeader(pd, offset);
    var a := ExtractAddresses(pd, h, AddressLayout(h, offset));
    ArpOutput(
      if view.protocolColumn then Some(ProtocolText(h.op)) else None,
      if view.infoColumn then Some(InfoFor(h.op, a)) else None,
      if view.tree then Some(BuildTree(h, offset, a)) else None)
  }

  /** The top item spanning the whole ARP message, and under it the nine
      field items, which cover that span back to back. */
  function BuildTree(h: ArpHeader, offset: int, a: Addrs): (tree: ArpTree)
    requires WellFormed(h)
    ensures tree.top == Item(offset, TotalLength(h), Summary(h.op))
    ensures tree.fields == Place(h, offset, Lines(h, a))
    ensures |tree.fields| == 9 && Tiles(tree.fields, offset, tree.top.End())
    ensures forall i :: 0 <= i < 9 ==> Showable(tree.fields[i].text)
  {
    PlaceTiles(h, offset, Lines(h, a));
    ArpTree(Item(offset, TotalLength(h), Summary(h.op)), Place(h, offset, Lines(h, a)))
  }

  // ---------------------------------------------------------------------
  // Properties of the dissector

  /** The header items show the header fields over the octets they were
      read from. */
  lemma HeaderItemsShowTheirBytes(pd: seq<byte>, offset: int, view: View)
    requires CapturedWhole(pd, offset) && view.tree
    ensures
      var t := Dissect(pd, offset, view).tree.value;
      && t.top == Item(offset, FIXED_HEADER_LEN + 2 * (pd[offset + AR_HLN] as int) + 2 * (pd[offset + AR_PLN] as int),
                       Summary(U16(pd, offset + AR_OP)))
      && t.fields[0] == Item(offset, 2, HardwareType(U16(pd, offset + AR_HRD)))
      && t.fields[1] == Item(offset + 2, 2, ProtocolType(U16(pd, offset + AR_PRO)))
      && t.fields[2] == Item(offset + 4, 1, HardwareSize(pd[offset + AR_HLN] as int))
      && t.fields[3] == Item(offset + 5, 1, ProtocolSize(pd[offset + AR_PLN] as int))
      && t.fields[4] == Item(offset + 6, 2, Opcode(U16(pd, offset + AR_OP)))
  {
  }

  /** Every address item highlights exactly the octets its line shows: the
      sender hardware address right after the eight header octets, and
      each following address where the previous one ends. */
  lemma AddressItemsShowTheirBytes(pd: seq<byte>, offset: int, view: View)
    requires CapturedWhole(pd, offset) && view.tree
    ensures
      var f := Dissect(pd, offset, view).tree.value.fields;
      var hrd := U16(pd, offset + AR_HRD);
      var pro := U16(pd, offset + AR_PRO);
      var hln := pd[offset + AR_HLN] as int;
      var pln := pd[offset + AR_PLN] as int;
      var sha := offset + 8;
      && f[5] == Item(sha, hln, AddressLine(SenderHardware, HardwareAddr(hrd, pd[sha..sha + hln])))
      && f[6] == Item(sha + hln, pln, AddressLine(SenderProtocol, ProtocolAddr(pro, pd[sha + hln..sha + hln + pln])))
      && f[7] == Item(sha + hln + pln, hln, AddressLine(TargetHardware, HardwareAddr(hrd, pd[sha + hln + pln..sha + 2 * hln + pln])))
      && f[8] == Item(sha + 2 * hln + pln, pln, AddressLine(TargetProtocol, ProtocolAddr(pro, pd[sha + 2 * hln + pln..sha + 2 * hln + 2 * pln])))
  {
  }

  /** The columns as the opcode chooses them. Requests and replies of both
      kinds quote their addresses in the fixed sentences; any other opcode
      is reported by value, and the protocol column then falls back to
      "ARP". */
  lemma ColumnsByOpcode(pd: seq<byte>, offset: int, view: View)
    requires CapturedWhole(pd, offset) && view.protocolColumn && view.infoColumn
    ensures
      var out := Dissect(pd, offset, view);
      var op := U16(pd, offset + AR_OP);
      var hrd := U16(pd, offset + AR_HRD);
      var pro := U16(pd, offset + AR_PRO);
      var hln := pd[offset + AR_HLN] as int;
      var pln := pd[offset + AR_PLN] as int;
      var o := offset + 8;
      var sha := HardwareAddr(hrd, pd[o..o + hln]);
      var spa := ProtocolAddr(pro, pd[o + hln..o + hln + pln]);
      var tha := HardwareAddr(hrd, pd[o + hln + pln..o + 2 * hln + pln]);
      var tpa := ProtocolAddr(pro, pd[o + 2 * hln + pln..o + 2 * hln + 2 * pln]);
      && (op == ARPOP_REQUEST ==> out.info == Some(WhoHas(tpa, spa)) && out.protocol == Some("ARP request"))
      && (op == ARPOP_REPLY ==> out.info == Some(IsAt(spa, sha)) && out.protocol == Some("ARP reply"))
      && (op == ARPOP_RREQUEST ==> out.info == Some(WhoIs(tha, sha)) && out.protocol == Some("RARP request"))
      && (op == ARPOP_RREPLY ==> out.info == Some(IsAt(sha, spa)) && out.protocol == Some("RARP reply"))
      && (!(ARPOP_REQUEST <= op <= ARPOP_RREPLY) ==> out.info == Some(UnknownOpcode(op)) && out.protocol == Some("ARP"))
  {
    ProtocolTextByOpcode(U16(pd, offset + AR_OP));
  }

  /** The octets of an ARP message: header, then the four addresses. */
  function EncodeArp(h: ArpHeader, sha: seq<byte>, spa: seq<byte>, tha: seq<byte>, tpa: seq<byte>): (s: seq<byte>)
    requires WellFormed(h)
    ensures |s| == FIXED_HEADER_LEN + |sha| + |spa| + |tha| + |tpa|
    ensures s[..FIXED_HEADER_LEN] == EncodeHeader(h)
  {
    EncodeHeader(h) + sha + spa + tha + tpa
  }

  /** Dissecting an encoded message gives back what it was built from: the
      header fields, the top item over exactly the message, and each
      address with the octets it was given. */
  lemma DissectEncoded(pre: seq<byte>, h: ArpHeader,
                       sha: seq<byte>, spa: seq<byte>, tha: seq<byte>, tpa: seq<byte>, post: seq<byte>)
    requires WellFormed(h)
    requires |sha| == h.hln && |tha| == h.hln && |spa| == h.pln && |tpa| == h.pln
    ensures
      var pd := pre + EncodeArp(h, sha, spa, tha, tpa) + post;
      && CapturedWhole(pd, |pre|)
      && var out := Dissect(pd, |pre|, View(true, true, true));
      var a := Addrs(HardwareAddr(h.hrd, sha), ProtocolAddr(h.pro, spa),
                     HardwareAddr(h.hrd, tha), ProtocolAddr(h.pro, tpa));
      && out.protocol == Some(ProtocolText(h.op))
      && out.info == Some(InfoFor(h.op, a))
      && out.tree.value.top == Item(|pre|, TotalLength(h), Summary(h.op))
      && out.tree.value.fields == Place(h, |pre|, Lines(h, a))
  {
    var pd := pre + EncodeArp(h, sha, spa, tha, tpa) + post;
    EncodedParts(pd, pre, EncodeHeader(h), sha, spa, tha, tpa, post);
    DissectEncodedIn(pd, pre, h, sha, spa, tha, tpa, post);
  }

  /** Where the parts of a message sit once it is laid out between `pre`
      and `post`. */
  lemma EncodedParts(pd: seq<byte>, pre: seq<byte>, hdr: seq<byte>,
                     sha: seq<byte>, spa: seq<byte>, tha: seq<byte>, tpa: seq<byte>, post: seq<byte>)
    requires pd == pre + (hdr + sha + spa + tha + tpa) + post
    ensures pd == pre + hdr + (sha + spa + tha + tpa + post)
    ensures var o := |pre| + |hdr|;
      && pd[o..o + |sha|] == sha
      && pd[o + |sha|..o + |sha| + |spa|] == spa
      && pd[o + |sha| + |spa|..o + |sha| + |spa| + |tha|] == tha
      && pd[o + |sha| + |spa| + |tha|..o + |sha| + |spa| + |tha| + |tpa|] == tpa
  {
    var o := |pre| + |hdr|;
    assert pd[o..o + |sha|] == sha;
    assert pd[o + |sha|..o + |sha| + |spa|] == spa;
    assert pd[o + |sha| + |spa|..o + |sha| + |spa| + |tha|] == tha;
    assert pd[o + |sha| + |spa| + |tha|..o + |sha| + |spa| + |tha| + |tpa|] == tpa;
  }

  lemma DissectEncodedIn(pd: seq<byte>, pre: seq<byte>, h: ArpHeader,
                         sha: seq<byte>, spa: seq<byte>, tha: seq<byte>, tpa: seq<byte>, post: seq<byte>)
    requires WellFormed(h)
    requires |sha| == h.hln && |tha| == h.hln && |spa| == h.pln && |tpa| == h.pln
    requires pd == pre + EncodeHeader(h) + (sha + spa + tha + tpa + post)
    requires var o := |pre| + 8;
      && pd[o..o + h.hln] == sha
      && pd[o + h.hln..o + h.hln + h.pln] == spa
      && pd[o + h.hln + h.pln..o + 2 * h.hln + h.pln] == tha
      && pd[o + 2 * h.hln + h.pln..o + 2 * h.hln + 2 * h.pln] == tpa
    ensures
      && CapturedWhole(pd, |pre|)
      && var out := Dissect(pd, |pre|, View(true, true, true));
      var a := Addrs(HardwareAddr(h.hrd, sha), ProtocolAddr(h.pro, spa),
                     HardwareAddr(h.hrd, tha), ProtocolAddr(h.pro, tpa));
      && out.protocol == Some(ProtocolText(h.op))
      && out.info == Some(InfoFor(h.op, a))
      && out.tree.value.top == Item(|pre|, TotalLength(h), Summary(h.op))
      && out.tree.value.fields == Place(h, |pre|, Lines(h, a))
  {
    DecodeEncodedHeader(pre, h, sha + spa + tha + tpa + post);
  }

  /** The request of the usual Ethernet/IPv4 exchange, as a 28-octet
      message: one top item over octets [0, 28) named "ARP request",
      Ethernet text for the hardware addresses and dotted text for the IPv4
      ones. */
  lemma EthernetIpv4Request(rs: Renderers, sha: seq<byte>, spa: seq<byte>, tha: seq<byte>, tpa: seq<byte>)
    requires |sha| == 6 && |tha| == 6 && |spa| == 4 && |tpa| == 4
    ensures
      var pd := [0, 1, 8, 0, 6, 4, 0, 1] + sha + spa + tha + tpa;
      && CapturedWhole(pd, 0)
      && var out := Dissect(pd, 0, View(true, true, true));
      && out.protocol == Some("ARP request")
      && InfoText(rs, out.info.value) == "Who has " + rs.ipToStr(tpa) + "?  Tell " + rs.ipToStr(spa)
      && out.tree.value.top.offset == 0 && out.tree.value.top.length == 28
      && LineText(rs, out.tree.value.top.text) == "ARP request"
      && LineText(rs, out.tree.value.fields[5].text) == "Sender hardware address: " + rs.etherToStr(sha)
  {
    var h := ArpHeader(ARPHRD_ETHER, ETHERTYPE_IP, 6, 4, ARPOP_REQUEST);
    assert EncodeHeader(h) == [0, 1, 8, 0, 6, 4, 0, 1];
    DissectEncoded([], h, sha, spa, tha, tpa, []);
    assert [] + EncodeArp(h, sha, spa, tha, tpa) + [] == [0, 1, 8, 0, 6, 4, 0, 1] + sha + spa + tha + tpa;
  }

  /** An opcode outside the table (0x0099 here) is printed, not named. */
  lemma UnknownOpcodeText(rs: Renderers, pd: seq<byte>)
    requires CapturedWhole(pd, 0) && U16(pd, AR_OP) == 0x0099
    ensures
      var out := Dissect(pd, 0, View(true, true, true));
      && out.protocol == Some("ARP")
      && InfoText(rs, out.info.value) == "Unknown ARP opcode 0x0099"
      && LineText(rs, out.tree.value.top.text) == "Unknown ARP (opcode 0x0099)"
      && LineText(rs, out.tree.value.fields[4].text) == "Opcode: 0x0099 (Unknown)"
  {
    HeaderItemsShowTheirBytes(pd, 0, View(true, true, true));
    UnknownOpcodeTexts(rs);
  }

  lemma UnknownOpcodeTexts(rs: Renderers)
    ensures ProtocolText(0x0099) == "ARP"
    ensures InfoText(rs, UnknownOpcode(0x0099)) == "Unknown ARP opcode 0x0099"
    ensures LineText(rs, Summary(0x0099)) == "Unknown ARP (opcode 0x0099)"
    ensures LineText(rs, Opcode(0x0099)) == "Opcode: 0x0099 (Unknown)"
  {
    OpcodeName(0x0099);
    Hex0099();
    UnknownOpcodeLine();
  }

  lemma Hex0099()
    ensures Hex04(0x0099) == "0099"
  {
  }

  lemma UnknownOpcodeLine()
    ensures OpcodeText(0x0099) == "0x0099 (Unknown)"
  {
    OpcodeName(0x0099);
    Hex0099();
    assert OpcodeText(0x0099) == "0x" + "0099" + " (" + "Unknown" + ")";
  }
}
