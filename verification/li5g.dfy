/** The X2/X3 lawful-interception PDU dissector of ETSI TS 103 221-2
    (clause 5): the 40-octet fixed header, the conditional attributes
    (type, length, value) that fill the rest of the header, the payload
    after it, and any further PDUs that follow in the same buffer. */
module Li5g {
  import opened Optional
  import opened Bytes
  import opened ValueStrings
  import opened Tree

  /** Attribute types below this bound have a display field. */
  const ATTR_TYPE_MAX: int := 19
  /** The fixed part of the header: the attributes start here. */
  const HEADER_LEN_MIN: int := 40
  /** The size of the table of payload sub-dissectors. */
  const PAYLOAD_FORMAT_MAX: int := 14
  /** The first length that no longer fits a signed 32-bit `gint`. */
  const INT32_LIMIT: int := 0x8000_0000

  const PDU_TYPE_VALS: seq<ValueString> := [
    ValueString(1, "X2 xIRI"),
    ValueString(2, "X3 xCC"),
    ValueString(3, "Keepalive"),
    ValueString(4, "Keepalive Acknowledgement")
  ]

  /** The sub-dissector registered for a payload format, by name: the
      table holds formats 2 and 5 to 13; every other entry is empty. */
  function Handle(format: int): (h: Option<string>)
    ensures h.Some? <==> format == 2 || 5 <= format <= 13
  {
    if format == 2 then Some("xiri")
    else if format == 5 then Some("ip")
    else if format == 6 then Some("ipv6")
    else if format == 7 then Some("eth_maybefcs")
    else if format == 8 then Some("rtp")
    else if format == 9 then Some("sip")
    else if format == 10 then Some("dhcp")
    else if format == 11 then Some("radius")
    else if format == 12 then Some("gtp")
    else if format == 13 then Some("msrp")
    else None
  }

  // ---------------------------------------------------------------------
  // Lengths as the framework takes them

  /** A 32-bit unsigned length passed where the framework expects a `gint`. */
  function AsGint(v: int): (g: int)
    requires 0 <= v < U32_LIMIT
    ensures v < INT32_LIMIT ==> g == v
    ensures v >= INT32_LIMIT ==> g < 0 && g + U32_LIMIT == v
  {
    if v < INT32_LIMIT then v else v - U32_LIMIT
  }

  /** The octets an item or a sub-buffer at `start` with `gint` length
      `len` covers, in a buffer of `size` octets: a length of -1 runs to
      the end; any other range must lie inside the buffer, or the
      framework throws. */
  function Extent(size: int, start: int, len: int): (r: Option<int>)
    requires 0 <= start
    ensures r.Some? ==> 0 <= r.value && start + r.value <= size
    ensures 0 <= len ==> (r.Some? <==> start + len <= size) && (r.Some? ==> r.value == len)
    ensures len == -1 ==> (r.Some? <==> start <= size) && (r.Some? ==> start + r.value == size)
    ensures len < -1 ==> r.None?
  {
    if len == -1 then (if start <= size then Some(size - start) else None)
    else if 0 <= len && start + len <= size then Some(len)
    else None
  }

  // ---------------------------------------------------------------------
  // The conditional attributes

  /** What an item shows: the eight fields of the fixed header, one step
      of the attribute walk (the type, length and value octets of one
      attribute, which the walk reads but the tree never shows as such),
      the three children a shown attribute gets, the item over its value,
      and the payload. */
  datatype Part =
    | Version | PduType | HeaderLength | PayloadLength | PayloadFormat
    | PayloadDirection | Xid | CorrelationId
    | Attr(attrType: int, attrLen: int)
    | AttrType | AttrLength | AttrContents(contentType: int)
    | Payload

  /** Types 5 to 18 are shown; types 1 to 4 and 19 on are skipped. */
  predicate Shown(attrType: int) {
    4 < attrType < ATTR_TYPE_MAX
  }

  /** The loop test `headerLen - offset > 0` on unsigned 32-bit values. */
  predicate MoreAttrs(headerLen: int, offset: int) {
    (headerLen - offset) % U32_LIMIT != 0
  }

  /** Because the subtraction wraps, the walk goes on past `headerLen` and
      stops only when it lands on it exactly. */
  lemma MoreAttrsUnlessLanded(headerLen: int, offset: int)
    requires 0 <= headerLen < U32_LIMIT && 0 <= offset < U32_LIMIT
    ensures MoreAttrs(headerLen, offset) <==> offset != headerLen
  {
  }

  /** The item of one attribute, over its type, length and value octets,
      as read from the buffer; a shown attribute's value must be inside
      the buffer. */
  predicate AttrAt(tvb: seq<byte>, it: Item<Part>) {
    && it.text.Attr?
    && 0 <= it.offset && it.offset + 4 <= |tvb|
    && it.text.attrType == U16(tvb, it.offset)
    && it.text.attrLen == U16(tvb, it.offset + 2)
    && it.length == 4 + it.text.attrLen
    && (Shown(it.text.attrType) ==> it.End() <= |tvb|)
  }

  datatype Walk = Walked(attrs: seq<Item<Part>>) | WalkAborted

  /** The attribute loop of `dissect_li5g` for the PDU at `base`, from
      `offset` (relative to `base`): each step reads a type and a length
      and moves past the value; a read past the buffer, or a shown value
      that runs past it, aborts. On success the attributes cover the
      header from `offset` to `headerLen` back to back. */
  function WalkAttrs(tvb: seq<byte>, base: int, headerLen: int, offset: int): (w: Walk)
    requires 0 <= base <= |tvb| < INT32_LIMIT
    requires 0 <= offset < |tvb| - base + U16_LIMIT + 4
    requires 0 <= headerLen < U32_LIMIT
    decreases |tvb| - base + U16_LIMIT + 4 - offset
  {
    if !MoreAttrs(headerLen, offset) then
      MoreAttrsUnlessLanded(headerLen, offset);
      Walked([])
    else if base + offset + 4 > |tvb| then WalkAborted
    else
      var t := U16(tvb, base + offset);
      var len := U16(tvb, base + offset + 2);
      var it := Item(base + offset, 4 + len, Attr(t, len));
      if Shown(t) && it.End() > |tvb| then WalkAborted
      else
        match WalkAttrs(tvb, base, headerLen, offset + 4 + len)
        case WalkAborted => WalkAborted
        case Walked(rest) =>
          Walked([it] + rest)
  }

  /** A walk that completes covers the header from `offset` to
      `headerLen` back to back. */
  lemma {:induction false} WalkTiles(tvb: seq<byte>, base: int, headerLen: int, offset: int)
    requires 0 <= base <= |tvb| < INT32_LIMIT
    requires 0 <= offset < |tvb| - base + U16_LIMIT + 4
    requires 0 <= headerLen < U32_LIMIT
    ensures
      var w := WalkAttrs(tvb, base, headerLen, offset);
      w.Walked? ==> Tiles(w.attrs, base + offset, base + headerLen)
    decreases |tvb| - base + U16_LIMIT + 4 - offset
  {
    MoreAttrsUnlessLanded(headerLen, offset);
    if MoreAttrs(headerLen, offset) && base + offset + 4 <= |tvb| {
      var len := U16(tvb, base + offset + 2);
      var it := Item(base + offset, 4 + len, Attr(U16(tvb, base + offset), len));
      if !(Shown(U16(tvb, base + offset)) && it.End() > |tvb|) {
        WalkTiles(tvb, base, headerLen, offset + 4 + len);
        var w := WalkAttrs(tvb, base, headerLen, offset + 4 + len);
        if w.Walked? {
          TilesCons(it, w.attrs, base + headerLen);
          assert WalkAttrs(tvb, base, headerLen, offset) == Walked([it] + w.attrs);
        }
      }
    }
  }

  /** Every step of a completed walk shows the type and length read at its
      offset, and a shown attribute's value lies inside the buffer. */
  lemma {:induction false} WalkReads(tvb: seq<byte>, base: int, headerLen: int, offset: int)
    requires 0 <= base <= |tvb| < INT32_LIMIT
    requires 0 <= offset < |tvb| - base + U16_LIMIT + 4
    requires 0 <= headerLen < U32_LIMIT
    ensures
      var w := WalkAttrs(tvb, base, headerLen, offset);
      w.Walked? ==> AllAt(tvb, w.attrs)
    decreases |tvb| - base + U16_LIMIT + 4 - offset
  {
    MoreAttrsUnlessLanded(headerLen, offset);
    if MoreAttrs(headerLen, offset) && base + offset + 4 <= |tvb| {
      var len := U16(tvb, base + offset + 2);
      var it := Item(base + offset, 4 + len, Attr(U16(tvb, base + offset), len));
      if !(Shown(U16(tvb, base + offset)) && it.End() > |tvb|) {
        WalkReads(tvb, base, headerLen, offset + 4 + len);
        var w := WalkAttrs(tvb, base, headerLen, offset + 4 + len);
        if w.Walked? {
          AttrsAtCons(tvb, it, w.attrs);
          assert WalkAttrs(tvb, base, headerLen, offset) == Walked([it] + w.attrs);
        }
      }
    }
  }

  /** Every item is an attribute step as read from the buffer. */
  predicate AllAt(tvb: seq<byte>, items: seq<Item<Part>>) {
    forall i :: 0 <= i < |items| ==> AttrAt(tvb, items[i])
  }

  lemma AttrsAtCons(tvb: seq<byte>, it: Item<Part>, rest: seq<Item<Part>>)
    requires AttrAt(tvb, it) && AllAt(tvb, rest)
    ensures AllAt(tvb, [it] + rest)
  {
    forall i | 0 < i < |rest| + 1
      ensures AttrAt(tvb, ([it] + rest)[i])
    {
      assert ([it] + rest)[i] == rest[i - 1];
    }
  }

  /** A walk that completes lands on the header length, which therefore
      lies within reach of the buffer. */
  lemma {:induction false} WalkLands(tvb: seq<byte>, base: int, headerLen: int, offset: int)
    requires 0 <= base <= |tvb| < INT32_LIMIT
    requires 0 <= offset < |tvb| - base + U16_LIMIT + 4
    requires 0 <= headerLen < U32_LIMIT
    ensures WalkAttrs(tvb, base, headerLen, offset).Walked? ==>
      offset <= headerLen < |tvb| - base + U16_LIMIT + 4
    decreases |tvb| - base + U16_LIMIT + 4 - offset
  {
    MoreAttrsUnlessLanded(headerLen, offset);
    if MoreAttrs(headerLen, offset) && base + offset + 4 <= |tvb| {
      WalkLands(tvb, base, headerLen, offset + 4 + U16(tvb, base + offset + 2));
    }
  }

  /** Once the walk is past the header length it can never land on it:
      it runs on until a read fails. */
  lemma {:induction false} WalkOvershoots(tvb: seq<byte>, base: int, headerLen: int, offset: int)
    requires 0 <= base <= |tvb| < INT32_LIMIT
    requires 0 <= offset < |tvb| - base + U16_LIMIT + 4
    requires 0 <= headerLen < offset
    ensures WalkAttrs(tvb, base, headerLen, offset) == WalkAborted
    decreases |tvb| - base + U16_LIMIT + 4 - offset
  {
    MoreAttrsUnlessLanded(headerLen, offset);
    if base + offset + 4 <= |tvb| {
      WalkOvershoots(tvb, base, headerLen, offset + 4 + U16(tvb, base + offset + 2));
    }
  }

  /** A tree item with the items of its own subtree. */
  datatype Subtree = Subtree(top: Item<Part>, children: seq<Item<Part>>)

  /** A walk step of a type the dissector shows. */
  predicate ShownStep(it: Item<Part>) {
    it.text.Attr? && Shown(it.text.attrType)
  }

  /** The subtree a shown attribute gets: an item over its value, with
      children for the type, the length and the value. */
  function AttrView(it: Item<Part>): (v: Subtree)
    requires it.text.Attr?
  {
    var contents := Item(it.offset + 4, it.text.attrLen, AttrContents(it.text.attrType));
    Subtree(contents, [Item(it.offset, 2, AttrType), Item(it.offset + 2, 2, AttrLength), contents])
  }

  /** The children of a shown attribute cover exactly its octets, and its
      contents item lies inside the buffer. */
  lemma AttrViewTiles(tvb: seq<byte>, it: Item<Part>)
    requires AttrAt(tvb, it) && Shown(it.text.attrType)
    ensures Tiles(AttrView(it).children, it.offset, it.End())
    ensures AttrView(it).top.offset == it.offset + 4 && AttrView(it).top.End() == it.End() <= |tvb|
  {
  }

  /** How many walk steps are of a shown type. */
  function CountShown(attrs: seq<Item<Part>>): nat {
    if attrs == [] then 0 else (if ShownStep(attrs[0]) then 1 else 0) + CountShown(attrs[1..])
  }

  /** The attribute subtrees of a PDU, in walk order: one for each step of
      a shown type, nothing for the others. */
  function AttrSubtrees(attrs: seq<Item<Part>>): (views: seq<Subtree>)
    ensures |views| == CountShown(attrs)
    ensures forall k :: 0 <= k < |views| ==> views[k].top.text.AttrContents? && Shown(views[k].top.text.contentType)
    decreases |attrs|
  {
    if attrs == [] then []
    else (if ShownStep(attrs[0]) then [AttrView(attrs[0])] else []) + AttrSubtrees(attrs[1..])
  }

  /** Counting the shown steps of a prefix one step at a time. */
  lemma {:induction false} CountShownPrefix(attrs: seq<Item<Part>>, i: nat)
    requires 0 < i <= |attrs|
    ensures CountShown(attrs[..i]) == (if ShownStep(attrs[0]) then 1 else 0) + CountShown(attrs[1..][..i - 1])
  {
    assert attrs[..i][1..] == attrs[1..][..i - 1];
  }

  /** Each shown step has its subtree at the place given by the number of
      shown steps before it. */
  lemma {:induction false} AttrSubtreesOrder(attrs: seq<Item<Part>>, i: nat)
    requires i < |attrs| && ShownStep(attrs[i])
    ensures CountShown(attrs[..i]) < |AttrSubtrees(attrs)|
    ensures AttrSubtrees(attrs)[CountShown(attrs[..i])] == AttrView(attrs[i])
    decreases i
  {
    if i == 0 {
      assert attrs[..0] == [];
    } else {
      AttrSubtreesOrder(attrs[1..], i - 1);
      CountShownPrefix(attrs, i);
      assert attrs[1..][i - 1] == attrs[i];
    }
  }

  /** Every subtree is the one of a shown step, the one with as many shown
      steps before it as subtrees before the subtree. */
  lemma {:induction false} AttrSubtreesFrom(attrs: seq<Item<Part>>, k: nat)
    requires k < |AttrSubtrees(attrs)|
    ensures exists i :: 0 <= i < |attrs| && ShownStep(attrs[i]) && CountShown(attrs[..i]) == k && AttrSubtrees(attrs)[k] == AttrView(attrs[i])
    decreases |attrs|
  {
    var c0 := if ShownStep(attrs[0]) then 1 else 0;
    if ShownStep(attrs[0]) && k == 0 {
      assert attrs[..0] == [];
    } else {
      AttrSubtreesFrom(attrs[1..], k - c0);
      var j :| 0 <= j < |attrs[1..]| && ShownStep(attrs[1..][j]) && CountShown(attrs[1..][..j]) == k - c0
               && AttrSubtrees(attrs[1..])[k - c0] == AttrView(attrs[1..][j]);
      CountShownPrefix(attrs, j + 1);
      assert attrs[1..][j] == attrs[j + 1];
    }
  }

  /** An attribute as a sender builds it: a type and a value. */
  datatype Attribute = Attribute(attrType: int, value: seq<byte>)

  predicate Encodable(attrs: seq<Attribute>) {
    forall i :: 0 <= i < |attrs| ==> 0 <= attrs[i].attrType < U16_LIMIT && |attrs[i].value| < U16_LIMIT
  }

  /** The attributes on the wire: type and length big-endian, then the
      value, one after the other. */
  function EncodeAttrs(attrs: seq<Attribute>): (s: seq<byte>)
    requires Encodable(attrs)
    ensures |s| == EncodedSize(attrs)
  {
    if attrs == [] then []
    else BE16(attrs[0].attrType) + BE16(|attrs[0].value|) + attrs[0].value + EncodeAttrs(attrs[1..])
  }

  /** The octets the encoding of `attrs` takes. */
  function EncodedSize(attrs: seq<Attribute>): nat {
    if attrs == [] then 0 else 4 + |attrs[0].value| + EncodedSize(attrs[1..])
  }

  /** The items the walk should find for the attributes `attrs` placed at
      `at`. */
  function AttrItems(attrs: seq<Attribute>, at: int): seq<Item<Part>> {
    if attrs == [] then []
    else [Item(at, 4 + |attrs[0].value|, Attr(attrs[0].attrType, |attrs[0].value|))] + AttrItems(attrs[1..], at + 4 + |attrs[0].value|)
  }

  /** One step of the walk that neither stops nor aborts. */
  lemma WalkStep(tvb: seq<byte>, base: int, headerLen: int, offset: int)
    requires 0 <= base <= |tvb| < INT32_LIMIT
    requires 0 <= offset < |tvb| - base + U16_LIMIT + 4
    requires 0 <= headerLen < U32_LIMIT
    requires offset != headerLen && base + offset + 4 <= |tvb|
    requires base + offset + 4 + U16(tvb, base + offset + 2) <= |tvb|
    ensures
      var it := Item(base + offset, 4 + U16(tvb, base + offset + 2), Attr(U16(tvb, base + offset), U16(tvb, base + offset + 2)));
      WalkAttrs(tvb, base, headerLen, offset) ==
        match WalkAttrs(tvb, base, headerLen, offset + 4 + U16(tvb, base + offset + 2))
        case WalkAborted => WalkAborted
        case Walked(rest) => Walked([it] + rest)
  {
    MoreAttrsUnlessLanded(headerLen, offset);
  }

  /** The first four octets of an encoding: the type and the value
      length, big-endian. */
  lemma {:induction false} EncodedPrefix(attrs: seq<Attribute>)
    requires Encodable(attrs) && attrs != []
    ensures
      var e := EncodeAttrs(attrs);
      && e[0] == attrs[0].attrType / 256 && e[1] == attrs[0].attrType % 256
      && e[2] == |attrs[0].value| / 256 && e[3] == |attrs[0].value| % 256
  {
  }

  lemma EncodableTail(attrs: seq<Attribute>)
    requires Encodable(attrs) && attrs != []
    ensures Encodable(attrs[1..])
  {
    forall i | 0 <= i < |attrs[1..]|
      ensures 0 <= attrs[1..][i].attrType < U16_LIMIT && |attrs[1..][i].value| < U16_LIMIT
    {
      assert attrs[1..][i] == attrs[i + 1];
    }
  }

  /** From `at`, `tvb` holds the type and the value length of each of
      `attrs` in turn, each followed by room for its value. */
  predicate HeadersAt(tvb: seq<byte>, at: int, attrs: seq<Attribute>)
    decreases |attrs|
  {
    attrs == [] ||
      (&& 0 <= at && at + 4 + |attrs[0].value| <= |tvb|
       && U16(tvb, at) == attrs[0].attrType && U16(tvb, at + 2) == |attrs[0].value|
       && HeadersAt(tvb, at + 4 + |attrs[0].value|, attrs[1..]))
  }

  /** A 16-bit read does not depend on what surrounds the two octets. */
  lemma U16Shift(pre: seq<byte>, s: seq<byte>, post: seq<byte>, i: int)
    requires 0 <= i && i + 2 <= |s|
    ensures U16(pre + s + post, |pre| + i) == U16(s, i)
  {
    assert (pre + s + post)[|pre| + i] == s[i] && (pre + s + post)[|pre| + i + 1] == s[i + 1];
  }

  /** Headers stay readable wherever their buffer is embedded. */
  lemma {:induction false} HeadersShift(pre: seq<byte>, s: seq<byte>, post: seq<byte>, at: int, attrs: seq<Attribute>)
    requires HeadersAt(s, at, attrs)
    ensures HeadersAt(pre + s + post, |pre| + at, attrs)
    decreases |attrs|
  {
    if attrs != [] {
      U16Shift(pre, s, post, at);
      U16Shift(pre, s, post, at + 2);
      HeadersShift(pre, s, post, at + 4 + |attrs[0].value|, attrs[1..]);
    }
  }

  /** An encoding reads back attribute by attribute. */
  lemma {:induction false} EncodingHeaders(attrs: seq<Attribute>)
    requires Encodable(attrs)
    ensures HeadersAt(EncodeAttrs(attrs), 0, attrs)
    decreases |attrs|
  {
    if attrs != [] {
      var a := attrs[0];
      var head := BE16(a.attrType) + BE16(|a.value|) + a.value;
      EncodableTail(attrs);
      EncodingHeaders(attrs[1..]);
      HeadersShift(head, EncodeAttrs(attrs[1..]), [], 0, attrs[1..]);
      assert EncodeAttrs(attrs) == head + EncodeAttrs(attrs[1..]) + [];
      EncodedPrefix(attrs);
    }
  }

  /** The walk over headers that end exactly at the header length finds
      each attribute, in order, with its type and length. */
  lemma {:induction false} WalkHeaders(tvb: seq<byte>, base: int, at: int, attrs: seq<Attribute>, headerLen: int)
    requires 0 <= base <= at && at + EncodedSize(attrs) <= |tvb| < INT32_LIMIT
    requires HeadersAt(tvb, at, attrs)
    requires headerLen == at - base + EncodedSize(attrs)
    ensures WalkAttrs(tvb, base, headerLen, at - base) == Walked(AttrItems(attrs, at))
    decreases |attrs|
  {
    if attrs == [] {
      assert !MoreAttrs(headerLen, at - base);
    } else {
      WalkStep(tvb, base, headerLen, at - base);
      WalkHeaders(tvb, base, at + 4 + |attrs[0].value|, attrs[1..], headerLen);
    }
  }

  /** Decoding inverts encoding: the walk over encoded attributes that end
      exactly at the header length finds each attribute, in order, with its
      type and length. */
  lemma WalkEncoded(pre: seq<byte>, base: int, attrs: seq<Attribute>, post: seq<byte>)
    requires Encodable(attrs)
    requires 0 <= base <= |pre|
    requires |pre + EncodeAttrs(attrs) + post| < INT32_LIMIT
    ensures
      var tvb := pre + EncodeAttrs(attrs) + post;
      WalkAttrs(tvb, base, |pre| - base + EncodedSize(attrs), |pre| - base) == Walked(AttrItems(attrs, |pre|))
  {
    var tvb := pre + EncodeAttrs(attrs) + post;
    EncodingHeaders(attrs);
    HeadersShift(pre, EncodeAttrs(attrs), post, 0, attrs);
    WalkHeaders(tvb, base, |pre|, attrs, |pre| - base + EncodedSize(attrs));
  }

  // ---------------------------------------------------------------------
  // One PDU

  /** The items of the fixed header at `start`. */
  function HeaderItems(start: int): (items: seq<Item<Part>>)
    ensures |items| == 8
  {
    [Item(start, 2, Version), Item(start + 2, 2, PduType), Item(start + 4, 4, HeaderLength),
     Item(start + 8, 4, PayloadLength), Item(start + 12, 2, PayloadFormat),
     Item(start + 14, 2, PayloadDirection), Item(start + 16, 16, Xid), Item(start + 32, 8, CorrelationId)]
  }

  /** The header fields cover the fixed header back to back. */
  lemma HeaderItemsTile(start: int)
    ensures Tiles(HeaderItems(start), start, start + HEADER_LEN_MIN)
  {
  }

  /** A PDU as the dissector finds it at `start`: the header fields it
      reads, where the next PDU would start relative to this one (the sum
      of the two 32-bit lengths, wrapping as unsigned 32-bit arithmetic
      does), the extent of its top item, the attribute steps, the length of
      the payload item and the sub-dissector the payload goes to. */
  datatype Pdu = Pdu(
    start: int,
    pduType: int,
    headerLen: int,
    payloadLen: int,
    payloadFormat: int,
    next: int,
    extent: int,
    attrs: seq<Item<Part>>,
    payload: int,
    handoff: Option<string>)

  /** `dissect_li5g` up to the call of the sub-dissector, for the PDU at
      `base`: nothing when a read or an item runs past the buffer (the
      framework throws and the whole dissection stops). The header needs
      14 octets for the lengths and the format, the top item covers
      `headerLen + payloadLen` octets taken as a `gint`, the header fields
      need 40 octets, the attribute walk must land on `headerLen`, and the
      payload item must fit. */
  function DecodeOne(tvb: seq<byte>, base: int): (r: Option<Pdu>)
    requires 0 <= base <= |tvb| < INT32_LIMIT
    ensures r.Some? ==> r.value.start == base
    ensures r.Some? ==> HEADER_LEN_MIN <= r.value.headerLen
    ensures r.Some? ==> 0 <= r.value.payload && base + r.value.headerLen + r.value.payload <= |tvb|
    ensures r.Some? ==> base + HEADER_LEN_MIN <= |tvb| && r.value.pduType == U16(tvb, base + 2)
    ensures r.Some? ==> r.value.next == (r.value.headerLen + r.value.payloadLen) % U32_LIMIT
    ensures r.Some? ==> 0 < r.value.next
    ensures r.Some? ==> 0 <= r.value.extent && base + r.value.extent <= |tvb|
    ensures r.Some? && base + r.value.next < |tvb| ==> r.value.extent == r.value.next
    ensures r.Some? && base + r.value.next >= |tvb| ==> base + r.value.extent == |tvb|
    ensures r.Some? ==> r.value.handoff == Handle(r.value.payloadFormat)
    ensures r.Some? ==> r.value.headerLen < U32_LIMIT && WalkAttrs(tvb, base, r.value.headerLen, HEADER_LEN_MIN) == Walked(r.value.attrs)
    ensures |tvb| - base < HEADER_LEN_MIN ==> r.None?
  {
    var size := |tvb| - base;
    if size < 14 then None
    else
      var hl := U32(tvb, base + 4);
      var pl := U32(tvb, base + 8);
      var pf := U16(tvb, base + 12);
      match Extent(size, 0, AsGint((hl + pl) % U32_LIMIT))
      case None => None
      case Some(extent) =>
        if size < HEADER_LEN_MIN then None
        else
          match WalkAttrs(tvb, base, hl, HEADER_LEN_MIN)
          case WalkAborted => None
          case Walked(attrs) =>
            WalkLands(tvb, base, hl, HEADER_LEN_MIN);
            match Extent(size, hl, AsGint(pl))
            case None => None
            case Some(payload) =>
              NextPositive(size, hl, pl);
              Some(Pdu(base, U16(tvb, base + 2), hl, pl, pf, (hl + pl) % U32_LIMIT, extent, attrs, payload, Handle(pf)))
  }

  /** A payload that fits the buffer keeps the wrapped sum of the two
      lengths away from 0: either the sum does not wrap, or the payload
      length is the all-ones value and the sum wraps to `headerLen - 1`. */
  lemma NextPositive(size: int, hl: int, pl: int)
    requires HEADER_LEN_MIN <= hl < U32_LIMIT && 0 <= pl < U32_LIMIT && size < INT32_LIMIT
    requires Extent(size, hl, AsGint(pl)).Some?
    ensures 0 < (hl + pl) % U32_LIMIT
  {
    if pl < INT32_LIMIT {
      assert hl + pl < U32_LIMIT;
    } else {
      assert pl == U32_LIMIT - 1;
      assert (hl + pl) % U32_LIMIT == hl - 1;
    }
  }

  /** Each PDU moves the dissection on by at least the fixed header less
      one octet: by the header and payload lengths when the payload length
      is an ordinary one, by one octet less than the header when it is the
      all-ones "to the end" value. */
  lemma PduAdvances(tvb: seq<byte>, base: int)
    requires 0 <= base <= |tvb| < INT32_LIMIT && DecodeOne(tvb, base).Some?
    ensures
      var p := DecodeOne(tvb, base).value;
      && HEADER_LEN_MIN - 1 <= p.next
      && (p.payloadLen != U32_LIMIT - 1 ==> p.next == p.headerLen + p.payloadLen && HEADER_LEN_MIN <= p.next)
  {
    var p := DecodeOne(tvb, base).value;
    if p.payloadLen < INT32_LIMIT {
      assert p.headerLen + p.payloadLen <= |tvb|;
    } else {
      assert p.payloadLen == U32_LIMIT - 1;
    }
  }

  /** The octet ranges a PDU is read in: the header fields, the steps of
      the attribute walk and the payload. These are spans, not tree items:
      the tree is `PduTree`. */
  function PduSpans(p: Pdu): seq<Item<Part>> {
    HeaderItems(p.start) + p.attrs + [Item(p.start + p.headerLen, p.payload, Payload)]
  }

  /** The header fields, attribute steps and payload of a PDU whose steps
      are the ones the walk finds cover its header and payload back to
      back, every step holds the type and length read at its offset, and
      every step of a shown type lies inside the buffer. */
  lemma {:induction false} PduSpansTile(tvb: seq<byte>, p: Pdu)
    requires 0 <= p.start <= |tvb| < INT32_LIMIT
    requires HEADER_LEN_MIN <= p.headerLen < U32_LIMIT && 0 <= p.payload
    requires WalkAttrs(tvb, p.start, p.headerLen, HEADER_LEN_MIN) == Walked(p.attrs)
    ensures Tiles(PduSpans(p), p.start, p.start + p.headerLen + p.payload)
    ensures AllAt(tvb, p.attrs)
  {
    WalkTiles(tvb, p.start, p.headerLen, HEADER_LEN_MIN);
    WalkReads(tvb, p.start, p.headerLen, HEADER_LEN_MIN);
    PartsTile(p);
  }

  lemma PartsTile(p: Pdu)
    requires HEADER_LEN_MIN <= p.headerLen && 0 <= p.payload
    requires Tiles(p.attrs, p.start + HEADER_LEN_MIN, p.start + p.headerLen)
    ensures Tiles(PduSpans(p), p.start, p.start + p.headerLen + p.payload)
  {
    HeaderItemsTile(p.start);
    TilesAppend(HeaderItems(p.start), p.attrs, p.start, p.start + HEADER_LEN_MIN, p.start + p.headerLen);
    TilesAppend(HeaderItems(p.start) + p.attrs, [Item(p.start + p.headerLen, p.payload, Payload)],
                p.start, p.start + p.headerLen, p.start + p.headerLen + p.payload);
  }

  /** The subtree of a PDU's top item: the eight header fields, a subtree
      for each attribute of a shown type, then the payload. */
  function PduTree(p: Pdu): (t: seq<Subtree>)
    ensures |t| == 9 + CountShown(p.attrs)
    ensures forall k :: 0 <= k < |t| ==> !t[k].top.text.Attr?
  {
    var h := HeaderItems(p.start);
    seq(8, k requires 0 <= k < 8 => Subtree(h[k], []))
      + AttrSubtrees(p.attrs)
      + [Subtree(Item(p.start + p.headerLen, p.payload, Payload), [])]
  }

  /** In the tree of a decoded PDU, each attribute subtree is over the
      value of an attribute of a shown type inside the variable header:
      the two 16-bit words just before the value give its type and length,
      and its children cover the type, length and value octets. */
  lemma {:induction false} DecodedPduTree(tvb: seq<byte>, base: int, p: Pdu, k: int)
    requires 0 <= base <= |tvb| < INT32_LIMIT && DecodeOne(tvb, base) == Some(p)
    requires 8 <= k < |PduTree(p)| - 1
    ensures AttrSubtreeAt(tvb, p, PduTree(p)[k])
  {
    WalkedPduTree(tvb, p, k);
  }

  /** A subtree over the value of an attribute of a shown type in the
      variable header of `p`, whose type and length are the two 16-bit
      words just before the value, with children over the type, length and
      value octets. */
  ghost predicate AttrSubtreeAt(tvb: seq<byte>, p: Pdu, v: Subtree) {
    && v.top.text.AttrContents? && Shown(v.top.text.contentType)
    && 0 <= p.start && p.start + HEADER_LEN_MIN + 4 <= v.top.offset && 0 <= v.top.length
    && v.top.End() <= p.start + p.headerLen && v.top.End() <= |tvb|
    && U16(tvb, v.top.offset - 4) == v.top.text.contentType
    && U16(tvb, v.top.offset - 2) == v.top.length
    && Tiles(v.children, v.top.offset - 4, v.top.End())
  }

  /** `DecodedPduTree` for any PDU whose steps are the ones the walk
      finds. */
  lemma {:induction false} WalkedPduTree(tvb: seq<byte>, p: Pdu, k: int)
    requires 0 <= p.start <= |tvb| < INT32_LIMIT
    requires HEADER_LEN_MIN <= p.headerLen < U32_LIMIT && 0 <= p.payload
    requires WalkAttrs(tvb, p.start, p.headerLen, HEADER_LEN_MIN) == Walked(p.attrs)
    requires 8 <= k < |PduTree(p)| - 1
    ensures AttrSubtreeAt(tvb, p, PduTree(p)[k])
  {
    PduTreeMiddle(p, k);
    AttrSubtreesFrom(p.attrs, k - 8);
    var i :| 0 <= i < |p.attrs| && ShownStep(p.attrs[i]) && CountShown(p.attrs[..i]) == k - 8
             && AttrSubtrees(p.attrs)[k - 8] == AttrView(p.attrs[i]);
    ShownStepSubtree(tvb, p, i);
    assert PduTree(p)[k] == AttrView(p.attrs[i]);
  }

  /** Between the header fields and the payload, the tree holds the
      attribute subtrees. */
  lemma {:induction false} PduTreeMiddle(p: Pdu, k: int)
    requires 8 <= k < |PduTree(p)| - 1
    ensures PduTree(p)[k] == AttrSubtrees(p.attrs)[k - 8]
  {
  }

  /** The subtree of a shown step the walk found is over that attribute's
      value. */
  lemma {:induction false} ShownStepSubtree(tvb: seq<byte>, p: Pdu, i: int)
    requires 0 <= p.start <= |tvb| < INT32_LIMIT
    requires HEADER_LEN_MIN <= p.headerLen < U32_LIMIT
    requires WalkAttrs(tvb, p.start, p.headerLen, HEADER_LEN_MIN) == Walked(p.attrs)
    requires 0 <= i < |p.attrs| && ShownStep(p.attrs[i])
    ensures AttrSubtreeAt(tvb, p, AttrView(p.attrs[i]))
  {
    var it := p.attrs[i];
    assert AttrAt(tvb, it) by {
      WalkReads(tvb, p.start, p.headerLen, HEADER_LEN_MIN);
    }
    assert p.start + HEADER_LEN_MIN <= it.offset && it.End() <= p.start + p.headerLen by {
      WalkTiles(tvb, p.start, p.headerLen, HEADER_LEN_MIN);
      TilesWithin(p.attrs, p.start + HEADER_LEN_MIN, p.start + p.headerLen, i);
    }
    AttrViewTiles(tvb, it);
  }

  /** A header length below the fixed header makes the walk start past
      it, so the PDU is never decoded. */
  lemma ShortHeaderAborts(tvb: seq<byte>, base: int)
    requires 0 <= base && base + 8 <= |tvb| < INT32_LIMIT
    requires U32(tvb, base + 4) < HEADER_LEN_MIN
    ensures DecodeOne(tvb, base).None?
  {
    if |tvb| - base >= HEADER_LEN_MIN {
      WalkOvershoots(tvb, base, U32(tvb, base + 4), HEADER_LEN_MIN);
    }
  }

  // ---------------------------------------------------------------------
  // The PDUs of a buffer

  /** The packet's addresses and ports, which a sub-dissector may change. */
  datatype Endpoints = Endpoints(src: seq<byte>, dst: seq<byte>, srcPort: int, dstPort: int)

  /** The info column: the name of the PDU type, or empty when the type is
      not one of the four. */
  function InfoColumn(pduType: int): string {
    MatchStrval(pduType, PDU_TYPE_VALS).GetOr("")
  }

  /** What a dissection leaves: on success the PDUs, the protocol and info
      columns and the endpoints; when the framework throws, only the
      endpoints as the exception left them. */
  datatype Outcome =
    | Decoded(pdus: seq<Pdu>, protocol: string, info: string, endpoints: Endpoints)
    | Aborted(endpoints: Endpoints)

  /** The call of the sub-dissector registered for the payload format, on
      the payload octets; it may change the endpoints. */
  function HandOff(tvb: seq<byte>, p: Pdu, ep: Endpoints, sub: (string, seq<byte>, Endpoints) -> Endpoints): Endpoints
    requires 0 <= p.start && 0 <= p.headerLen && 0 <= p.payload && p.start + p.headerLen + p.payload <= |tvb|
  {
    match p.handoff
    case None => ep
    case Some(name) => sub(name, tvb[p.start + p.headerLen .. p.start + p.headerLen + p.payload], ep)
  }

  /** `dissect_li5g` on the sub-buffer that starts at `base`: decode the
      PDU, hand its payload on, dissect the rest of the buffer when the
      next PDU starts inside it, and only then set the columns from this
      PDU and put back the endpoints saved before the hand-off. */
  function Dissect(tvb: seq<byte>, base: int, ep: Endpoints, sub: (string, seq<byte>, Endpoints) -> Endpoints): (o: Outcome)
    requires 0 <= base <= |tvb| < INT32_LIMIT
    ensures DecodeOne(tvb, base).None? ==> o == Aborted(ep)
    ensures o.Decoded? ==> o.pdus != [] && DecodeOne(tvb, base) == Some(o.pdus[0])
    ensures o.Decoded? ==> o.protocol == "5GLI" && o.info == InfoColumn(o.pdus[0].pduType) && o.endpoints == ep
    decreases |tvb| - base, 1
  {
    match DecodeOne(tvb, base)
    case None => Aborted(ep)
    case Some(p) => DissectAfter(tvb, p, ep, sub)
  }

  /** The rest of `dissect_li5g` once the PDU `p` is decoded: the hand-off
      of its payload, the dissection of the rest of the buffer when the
      next PDU starts inside it, and the columns. */
  function DissectAfter(tvb: seq<byte>, p: Pdu, ep: Endpoints, sub: (string, seq<byte>, Endpoints) -> Endpoints): (o: Outcome)
    requires |tvb| < INT32_LIMIT && 0 <= p.start && 0 <= p.headerLen && 0 <= p.payload
    requires p.start + p.headerLen + p.payload <= |tvb| && 0 < p.next
    ensures o.Decoded? ==> o.pdus != [] && o.pdus[0] == p
    ensures o.Decoded? ==> o.protocol == "5GLI" && o.info == InfoColumn(p.pduType) && o.endpoints == ep
    decreases |tvb| - p.start, 0
  {
    var ep' := HandOff(tvb, p, ep, sub);
    if |tvb| - p.start > p.next then
      match Dissect(tvb, p.start + p.next, ep', sub)
      case Aborted(e) => Aborted(e)
      case Decoded(rest, _, _, _) => Decoded([p] + rest, "5GLI", InfoColumn(p.pduType), ep)
    else
      Decoded([p], "5GLI", InfoColumn(p.pduType), ep)
  }

  /** A completed dissection is its first PDU followed by the PDUs of the
      rest of the buffer, when the next PDU starts inside it. */
  lemma DissectUnfold(tvb: seq<byte>, base: int, ep: Endpoints, sub: (string, seq<byte>, Endpoints) -> Endpoints)
    requires 0 <= base <= |tvb| < INT32_LIMIT
    requires Dissect(tvb, base, ep, sub).Decoded?
    ensures
      var o := Dissect(tvb, base, ep, sub);
      var p := o.pdus[0];
      && (|tvb| - base > p.next ==>
            var o' := Dissect(tvb, base + p.next, HandOff(tvb, p, ep, sub), sub);
            o'.Decoded? && o.pdus == [p] + o'.pdus)
      && (|tvb| - base <= p.next ==> o.pdus == [p])
  {
  }

  /** Each PDU is what the dissector decodes at that PDU's start. */
  predicate Decodes(tvb: seq<byte>, pdus: seq<Pdu>)
    requires |tvb| < INT32_LIMIT
  {
    forall i :: 0 <= i < |pdus| ==> 0 <= pdus[i].start <= |tvb| && DecodeOne(tvb, pdus[i].start) == Some(pdus[i])
  }

  /** Each PDU starts where the one before it says the next one does. */
  ghost predicate Linked(pdus: seq<Pdu>) {
    |pdus| <= 1 || (pdus[1].start == pdus[0].start + pdus[0].next && Linked(pdus[1..]))
  }

  /** Each link of a chain, by position. */
  lemma {:induction false} LinkedAt(pdus: seq<Pdu>, i: int)
    requires Linked(pdus) && 0 <= i < |pdus| - 1
    ensures pdus[i + 1].start == pdus[i].start + pdus[i].next
    decreases i
  {
    if i > 0 {
      LinkedAt(pdus[1..], i - 1);
      assert pdus[1..][i - 1] == pdus[i] && pdus[1..][i] == pdus[i + 1];
    }
  }

  lemma DecodesCons(tvb: seq<byte>, p: Pdu, rest: seq<Pdu>, pdus: seq<Pdu>)
    requires |tvb| < INT32_LIMIT && 0 <= p.start <= |tvb| && DecodeOne(tvb, p.start) == Some(p)
    requires Decodes(tvb, rest) && pdus == [p] + rest
    ensures Decodes(tvb, pdus)
  {
    forall i | 0 < i < |pdus|
      ensures 0 <= pdus[i].start <= |tvb| && DecodeOne(tvb, pdus[i].start) == Some(pdus[i])
    {
      assert pdus[i] == rest[i - 1];
    }
  }

  lemma {:induction false} LinkedCons(p: Pdu, rest: seq<Pdu>)
    requires Linked(rest) && (rest != [] ==> rest[0].start == p.start + p.next)
    ensures Linked([p] + rest)
  {
    assert ([p] + rest)[1..] == rest;
  }

  /** Every PDU of a completed dissection is what the dissector decodes
      at that PDU's start, the first one at the start of the dissection. */
  lemma {:induction false} DissectDecodes(tvb: seq<byte>, base: int, ep: Endpoints, sub: (string, seq<byte>, Endpoints) -> Endpoints)
    requires 0 <= base <= |tvb| < INT32_LIMIT
    ensures
      var o := Dissect(tvb, base, ep, sub);
      o.Decoded? ==> o.pdus[0].start == base && Decodes(tvb, o.pdus)
    decreases |tvb| - base
  {
    var o := Dissect(tvb, base, ep, sub);
    if o.Decoded? {
      DissectUnfold(tvb, base, ep, sub);
      var p := o.pdus[0];
      if |tvb| - base > p.next {
        var ep' := HandOff(tvb, p, ep, sub);
        DissectDecodes(tvb, base + p.next, ep', sub);
        DecodesCons(tvb, p, Dissect(tvb, base + p.next, ep', sub).pdus, o.pdus);
      }
    }
  }

  lemma {:induction false} DissectStarts(tvb: seq<byte>, base: int, ep: Endpoints, sub: (string, seq<byte>, Endpoints) -> Endpoints)
    requires 0 <= base <= |tvb| < INT32_LIMIT
    ensures var o := Dissect(tvb, base, ep, sub); o.Decoded? ==> o.pdus[0].start == base
  {
  }

  /** The PDUs of a completed dissection form a chain: each starts where
      the one before it says the next one does, and the last one says the
      next one would start at or past the end of the buffer. */
  lemma {:induction false} DissectChain(tvb: seq<byte>, base: int, ep: Endpoints, sub: (string, seq<byte>, Endpoints) -> Endpoints)
    requires 0 <= base <= |tvb| < INT32_LIMIT
    ensures
      var o := Dissect(tvb, base, ep, sub);
      o.Decoded? ==> Chained(o.pdus, |tvb|)
    decreases |tvb| - base, 1
  {
    match DecodeOne(tvb, base)
    case None =>
    case Some(p) => AfterChain(tvb, p, ep, sub);
  }

  /** The chain lemma for the PDUs that follow one decoded PDU. */
  lemma {:induction false} AfterChain(tvb: seq<byte>, p: Pdu, ep: Endpoints, sub: (string, seq<byte>, Endpoints) -> Endpoints)
    requires |tvb| < INT32_LIMIT && 0 <= p.start && 0 <= p.headerLen && 0 <= p.payload
    requires p.start + p.headerLen + p.payload <= |tvb| && 0 < p.next
    ensures
      var o := DissectAfter(tvb, p, ep, sub);
      o.Decoded? ==> Chained(o.pdus, |tvb|)
    decreases |tvb| - p.start, 0
  {
    if |tvb| - p.start > p.next {
      var ep' := HandOff(tvb, p, ep, sub);
      DissectChain(tvb, p.start + p.next, ep', sub);
      var o' := Dissect(tvb, p.start + p.next, ep', sub);
      if o'.Decoded? {
        DissectStarts(tvb, p.start + p.next, ep', sub);
        ChainedCons(p, o'.pdus, [p] + o'.pdus, |tvb|);
      }
    }
  }

  /** PDUs linked one after the other, the last one pointing at or past
      `size`. */
  ghost predicate Chained(pdus: seq<Pdu>, size: int) {
    pdus != [] && Linked(pdus) && pdus[|pdus| - 1].start + pdus[|pdus| - 1].next >= size
  }

  /** A chain stays one once a PDU pointing at its start is put in front. */
  lemma {:induction false} ChainedCons(p: Pdu, rest: seq<Pdu>, pdus: seq<Pdu>, size: int)
    requires pdus == [p] + rest && Chained(rest, size) && rest[0].start == p.start + p.next
    ensures Chained(pdus, size)
  {
    LinkedCons(p, rest);
    assert pdus[|pdus| - 1] == rest[|rest| - 1];
  }

  /** The top items of the PDUs, one per PDU. */
  function TopItems(pdus: seq<Pdu>): (items: seq<Item<int>>)
    ensures |items| == |pdus|
  {
    seq(|pdus|, i requires 0 <= i < |pdus| => Item(pdus[i].start, pdus[i].extent, pdus[i].pduType))
  }

  /** The top items of a completed dissection cover the buffer from where
      it started to its end, back to back: a PDU whose lengths point past
      the end, or whose payload length is the "to the end" value, is the
      last and its item runs to the end. */
  lemma {:induction false} TopItemsTile(tvb: seq<byte>, base: int, ep: Endpoints, sub: (string, seq<byte>, Endpoints) -> Endpoints)
    requires 0 <= base <= |tvb| < INT32_LIMIT
    ensures
      var o := Dissect(tvb, base, ep, sub);
      o.Decoded? ==> Tiles(TopItems(o.pdus), base, |tvb|)
  {
    var o := Dissect(tvb, base, ep, sub);
    DissectDecodes(tvb, base, ep, sub);
    DissectChain(tvb, base, ep, sub);
    if o.Decoded? {
      DecodedExtents(tvb, o.pdus);
      ChainTiles(|tvb|, o.pdus, base);
    }
  }

  /** What the top item of a decoded PDU needs to meet the next one: a
      whole fixed header inside the buffer, and an extent that reaches the
      next PDU when that starts inside the buffer, the end otherwise. */
  predicate ExtentFits(size: int, p: Pdu) {
    && 0 <= p.extent && p.start + HEADER_LEN_MIN <= size
    && (p.start + p.next < size ==> p.extent == p.next)
    && (p.start + p.next >= size ==> p.start + p.extent == size)
  }

  /** Decoded PDUs have extents that fit. */
  lemma DecodedExtents(tvb: seq<byte>, pdus: seq<Pdu>)
    requires |tvb| < INT32_LIMIT && Decodes(tvb, pdus)
    ensures forall i :: 0 <= i < |pdus| ==> ExtentFits(|tvb|, pdus[i])
  {
    forall i | 0 <= i < |pdus|
      ensures ExtentFits(|tvb|, pdus[i])
    {
      DecodedExtent(tvb, pdus[i]);
    }
  }

  lemma DecodedExtent(tvb: seq<byte>, p: Pdu)
    requires |tvb| < INT32_LIMIT && 0 <= p.start <= |tvb| && DecodeOne(tvb, p.start) == Some(p)
    ensures ExtentFits(|tvb|, p)
  {
  }

  /** The top items of a chain of PDUs whose extents fit, ending past the
      buffer, cover the buffer from the first PDU on: each top item ends
      where the next PDU, which needs a whole header inside the buffer,
      starts. */
  lemma {:induction false} ChainTiles(size: int, pdus: seq<Pdu>, base: int)
    requires Chained(pdus, size) && pdus[0].start == base
    requires forall i :: 0 <= i < |pdus| ==> ExtentFits(size, pdus[i])
    ensures Tiles(TopItems(pdus), base, size)
  {
    var t := TopItems(pdus);
    forall i, j | 0 <= i && j == i + 1 && j < |t|
      ensures t[j].offset == t[i].End()
    {
      LinkedAt(pdus, i);
      assert ExtentFits(size, pdus[i]) && ExtentFits(size, pdus[j]);
    }
    assert ExtentFits(size, pdus[|pdus| - 1]);
  }

  /** A payload length of all ones is the `gint` -1, "to the end": the
      payload item runs to the end of the buffer, while the next PDU is
      looked for one octet before the payload. */
  lemma AllOnesPayload(tvb: seq<byte>, base: int)
    requires 0 <= base <= |tvb| < INT32_LIMIT
    requires DecodeOne(tvb, base).Some? && DecodeOne(tvb, base).value.payloadLen == U32_LIMIT - 1
    ensures
      var p := DecodeOne(tvb, base).value;
      base + p.headerLen + p.payload == |tvb| && p.next == p.headerLen - 1
  {
  }

  // ---------------------------------------------------------------------
  // PDUs as a sender builds them

  /** A PDU before encoding: version 1, the header fields, the attributes
      and the payload. */
  datatype Frame = Frame(
    pduType: int,
    payloadFormat: int,
    direction: int,
    xid: seq<byte>,
    cid: seq<byte>,
    attrs: seq<Attribute>,
    payload: seq<byte>)

  predicate FrameOk(f: Frame) {
    && 0 <= f.pduType < U16_LIMIT && 0 <= f.payloadFormat < U16_LIMIT && 0 <= f.direction < U16_LIMIT
    && |f.xid| == 16 && |f.cid| == 8
    && Encodable(f.attrs)
    && HEADER_LEN_MIN + EncodedSize(f.attrs) + |f.payload| < INT32_LIMIT
  }

  /** The header length a sender puts in: the fixed header and the
      attributes. */
  function HeaderLenOf(f: Frame): int {
    HEADER_LEN_MIN + EncodedSize(f.attrs)
  }

  function FixedHeader(f: Frame): (h: seq<byte>)
    requires FrameOk(f)
    ensures |h| == HEADER_LEN_MIN
  {
    BE16(1) + BE16(f.pduType) + BE32(HeaderLenOf(f)) + BE32(|f.payload|)
      + BE16(f.payloadFormat) + BE16(f.direction) + f.xid + f.cid
  }

  /** The octets a frame takes: its header and its payload. */
  function FrameSize(f: Frame): int {
    HeaderLenOf(f) + |f.payload|
  }

  function EncodeFrame(f: Frame): (s: seq<byte>)
    requires FrameOk(f)
    ensures |s| == FrameSize(f)
  {
    FixedHeader(f) + EncodeAttrs(f.attrs) + f.payload
  }

  /** The PDU the dissector should find for the frame `f` encoded at `at`. */
  function FramePdu(f: Frame, at: int): Pdu {
    var hl := HeaderLenOf(f);
    Pdu(at, f.pduType, hl, |f.payload|, f.payloadFormat, hl + |f.payload|, hl + |f.payload|,
        AttrItems(f.attrs, at + HEADER_LEN_MIN), |f.payload|, Handle(f.payloadFormat))
  }

  /** Concatenation regrouped around the middle piece `b`. */
  lemma Regroup<T>(a: seq<T>, h: seq<T>, b: seq<T>, c: seq<T>, d: seq<T>)
    ensures a + (h + b + c) + d == (a + h) + b + (c + d)
    ensures a + (h + b + c) + d == a + h + (b + c + d)
  {
  }

  lemma Regroup4<T>(a: seq<T>, b: seq<T>, c: seq<T>, d: seq<T>)
    ensures a + (b + c) + d == a + b + (c + d)
    ensures a + (b + c) + d == (a + b) + c + d
  {
  }

  /** A 32-bit read does not depend on what surrounds the four octets. */
  lemma U32Shift(pre: seq<byte>, s: seq<byte>, post: seq<byte>, i: int)
    requires 0 <= i && i + 4 <= |s|
    ensures U32(pre + s + post, |pre| + i) == U32(s, i)
  {
    U16Shift(pre, s, post, i);
    U16Shift(pre, s, post, i + 2);
  }

  /** The fixed header reads back field by field. */
  lemma FixedHeaderReads(f: Frame)
    requires FrameOk(f)
    ensures
      var h := FixedHeader(f);
      && U16(h, 0) == 1 && U16(h, 2) == f.pduType
      && U32(h, 4) == HeaderLenOf(f) && U32(h, 8) == |f.payload| && U16(h, 12) == f.payloadFormat
  {
    var h := FixedHeader(f);
    var rest := BE16(f.payloadFormat) + BE16(f.direction) + f.xid + f.cid;
    assert U16(h, 0) == 1 by {
      assert h == [] + BE16(1) + (BE16(f.pduType) + BE32(HeaderLenOf(f)) + BE32(|f.payload|) + rest);
      U16OfBE16([], 1, BE16(f.pduType) + BE32(HeaderLenOf(f)) + BE32(|f.payload|) + rest);
    }
    assert U16(h, 2) == f.pduType by {
      assert h == BE16(1) + BE16(f.pduType) + (BE32(HeaderLenOf(f)) + BE32(|f.payload|) + rest);
      U16OfBE16(BE16(1), f.pduType, BE32(HeaderLenOf(f)) + BE32(|f.payload|) + rest);
    }
    assert U32(h, 4) == HeaderLenOf(f) by {
      assert h == (BE16(1) + BE16(f.pduType)) + BE32(HeaderLenOf(f)) + (BE32(|f.payload|) + rest);
      U32OfBE32(BE16(1) + BE16(f.pduType), HeaderLenOf(f), BE32(|f.payload|) + rest);
    }
    assert U32(h, 8) == |f.payload| by {
      assert h == (BE16(1) + BE16(f.pduType) + BE32(HeaderLenOf(f))) + BE32(|f.payload|) + rest;
      U32OfBE32(BE16(1) + BE16(f.pduType) + BE32(HeaderLenOf(f)), |f.payload|, rest);
    }
    assert U16(h, 12) == f.payloadFormat by {
      var pre := BE16(1) + BE16(f.pduType) + BE32(HeaderLenOf(f)) + BE32(|f.payload|);
      assert h == pre + BE16(f.payloadFormat) + (BE16(f.direction) + f.xid + f.cid);
      U16OfBE16(pre, f.payloadFormat, BE16(f.direction) + f.xid + f.cid);
    }
  }

  /** Wherever an encoded frame sits, its header fields read back. */
  lemma FrameReads(tvb: seq<byte>, pre: seq<byte>, f: Frame, post: seq<byte>)
    requires FrameOk(f) && tvb == pre + EncodeFrame(f) + post
    ensures
      && U16(tvb, |pre|) == 1 && U16(tvb, |pre| + 2) == f.pduType
      && U32(tvb, |pre| + 4) == HeaderLenOf(f) && U32(tvb, |pre| + 8) == |f.payload|
      && U16(tvb, |pre| + 12) == f.payloadFormat
  {
    var rest := EncodeAttrs(f.attrs) + f.payload + post;
    Regroup(pre, FixedHeader(f), EncodeAttrs(f.attrs), f.payload, post);
    Regroup(pre, FixedHeader(f), [], EncodeAttrs(f.attrs) + f.payload, post);
    FixedHeaderReads(f);
    U16Shift(pre, FixedHeader(f), rest, 0);
    U16Shift(pre, FixedHeader(f), rest, 2);
    U32Shift(pre, FixedHeader(f), rest, 4);
    U32Shift(pre, FixedHeader(f), rest, 8);
    U16Shift(pre, FixedHeader(f), rest, 12);
  }

  /** Wherever an encoded frame sits, the walk over its attributes finds
      them. */
  lemma {:induction false} FrameWalk(tvb: seq<byte>, pre: seq<byte>, f: Frame, post: seq<byte>)
    requires FrameOk(f) && tvb == pre + EncodeFrame(f) + post && |tvb| < INT32_LIMIT
    ensures WalkAttrs(tvb, |pre|, HeaderLenOf(f), HEADER_LEN_MIN) == Walked(AttrItems(f.attrs, |pre| + HEADER_LEN_MIN))
  {
    Regroup(pre, FixedHeader(f), EncodeAttrs(f.attrs), f.payload, post);
    WalkAfterHeader(tvb, pre, FixedHeader(f), f.attrs, f.payload + post);
  }

  lemma {:induction false} WalkAfterHeader(tvb: seq<byte>, pre: seq<byte>, h: seq<byte>, attrs: seq<Attribute>, rest: seq<byte>)
    requires |h| == HEADER_LEN_MIN && Encodable(attrs)
    requires tvb == (pre + h) + EncodeAttrs(attrs) + rest && |tvb| < INT32_LIMIT
    ensures WalkAttrs(tvb, |pre|, HEADER_LEN_MIN + EncodedSize(attrs), HEADER_LEN_MIN)
         == Walked(AttrItems(attrs, |pre| + HEADER_LEN_MIN))
  {
    WalkEncoded(pre + h, |pre|, attrs, rest);
  }

  /** Decoding inverts encoding: an encoded frame, wherever it sits and
      whatever follows it, decodes to its header fields, its attributes,
      a top item over the whole PDU and a payload item over the payload,
      handed to the sub-dissector of its format. */
  lemma DecodeEncoded(pre: seq<byte>, f: Frame, post: seq<byte>)
    requires FrameOk(f) && |pre + EncodeFrame(f) + post| < INT32_LIMIT
    ensures DecodeOne(pre + EncodeFrame(f) + post, |pre|) == Some(FramePdu(f, |pre|))
  {
    DecodeEncodedIn(pre + EncodeFrame(f) + post, pre, f, post);
  }

  lemma DecodeEncodedIn(tvb: seq<byte>, pre: seq<byte>, f: Frame, post: seq<byte>)
    requires FrameOk(f) && tvb == pre + EncodeFrame(f) + post && |tvb| < INT32_LIMIT
    ensures DecodeOne(tvb, |pre|) == Some(FramePdu(f, |pre|))
  {
    FrameReads(tvb, pre, f, post);
    FrameWalk(tvb, pre, f, post);
    DecodeFields(tvb, |pre|, f.pduType, HeaderLenOf(f), |f.payload|, f.payloadFormat,
                 AttrItems(f.attrs, |pre| + HEADER_LEN_MIN));
  }

  /** A PDU whose header fits, whose attributes walk to the header length
      and whose payload fits decodes to exactly those fields. */
  lemma {:induction false} DecodeFields(tvb: seq<byte>, base: int, pduType: int, hl: int, pl: int, pf: int, attrs: seq<Item<Part>>)
    requires 0 <= base <= |tvb| < INT32_LIMIT
    requires HEADER_LEN_MIN <= hl && base + hl + pl <= |tvb| && 0 <= pl
    requires U16(tvb, base + 2) == pduType && U32(tvb, base + 4) == hl
    requires U32(tvb, base + 8) == pl && U16(tvb, base + 12) == pf
    requires WalkAttrs(tvb, base, hl, HEADER_LEN_MIN) == Walked(attrs)
    ensures DecodeOne(tvb, base) == Some(Pdu(base, pduType, hl, pl, pf, hl + pl, hl + pl, attrs, pl, Handle(pf)))
  {
  }

  /** The payload the dissector hands on is the payload the sender put in. */
  lemma HandOffEncoded(pre: seq<byte>, f: Frame, post: seq<byte>, ep: Endpoints, sub: (string, seq<byte>, Endpoints) -> Endpoints)
    requires FrameOk(f) && |pre + EncodeFrame(f) + post| < INT32_LIMIT
    ensures
      var tvb := pre + EncodeFrame(f) + post;
      HandOff(tvb, FramePdu(f, |pre|), ep, sub)
        == if Handle(f.payloadFormat).Some? then sub(Handle(f.payloadFormat).value, f.payload, ep) else ep
  {
    var tvb := pre + EncodeFrame(f) + post;
    var head := pre + FixedHeader(f) + EncodeAttrs(f.attrs);
    assert tvb == head + f.payload + post by {
      Regroup(pre + FixedHeader(f), [], EncodeAttrs(f.attrs), f.payload, post);
      Regroup(pre, FixedHeader(f), EncodeAttrs(f.attrs), f.payload, post);
    }
    SliceMiddle(head, f.payload, post);
  }

  lemma SliceMiddle<T>(a: seq<T>, b: seq<T>, c: seq<T>)
    ensures (a + b + c)[|a| .. |a| + |b|] == b
  {
  }

  /** Frames sent back to back. */
  predicate AllFramesOk(fs: seq<Frame>) {
    forall i :: 0 <= i < |fs| ==> FrameOk(fs[i])
  }

  function EncodeFrames(fs: seq<Frame>): (s: seq<byte>)
    requires AllFramesOk(fs)
  {
    if fs == [] then [] else EncodeFrame(fs[0]) + EncodeFrames(fs[1..])
  }

  /** The PDUs the dissector should find for the frames `fs` encoded back
      to back from `at`. */
  function FramePdus(fs: seq<Frame>, at: int): (pdus: seq<Pdu>)
    requires AllFramesOk(fs)
    ensures |pdus| == |fs|
  {
    if fs == [] then [] else [FramePdu(fs[0], at)] + FramePdus(fs[1..], at + FrameSize(fs[0]))
  }

  /** One step of the dissection, given the PDU decoded at `base`. */
  lemma DissectStep(tvb: seq<byte>, base: int, p: Pdu, ep: Endpoints, sub: (string, seq<byte>, Endpoints) -> Endpoints)
    requires 0 <= base <= |tvb| < INT32_LIMIT && DecodeOne(tvb, base) == Some(p)
    ensures |tvb| - base <= p.next ==> Dissect(tvb, base, ep, sub) == Decoded([p], "5GLI", InfoColumn(p.pduType), ep)
    ensures |tvb| - base > p.next ==>
      var o' := Dissect(tvb, base + p.next, HandOff(tvb, p, ep, sub), sub);
      Dissect(tvb, base, ep, sub)
        == if o'.Decoded? then Decoded([p] + o'.pdus, "5GLI", InfoColumn(p.pduType), ep) else Aborted(o'.endpoints)
  {
  }

  /** The converse of the chain lemmas: PDUs that decode where they sit,
      each starting where the one before it says the next one does, the
      last one pointing at or past the end, are what the dissection of the
      buffer from the first one's start finds. */
  lemma {:induction false} ChainDissects(tvb: seq<byte>, pdus: seq<Pdu>, ep: Endpoints, sub: (string, seq<byte>, Endpoints) -> Endpoints)
    requires |tvb| < INT32_LIMIT && Decodes(tvb, pdus) && Chained(pdus, |tvb|)
    ensures Dissect(tvb, pdus[0].start, ep, sub) == Decoded(pdus, "5GLI", InfoColumn(pdus[0].pduType), ep)
    decreases |pdus|, 1
  {
    if |pdus| == 1 {
      var p := pdus[0];
      assert DecodeOne(tvb, p.start) == Some(p);
      DissectStep(tvb, p.start, p, ep, sub);
      assert pdus == [p];
    } else {
      ChainDissectsLonger(tvb, pdus, ep, sub);
    }
  }

  /** The converse of the chain lemmas for a chain of two PDUs or more. */
  lemma {:induction false} ChainDissectsLonger(tvb: seq<byte>, pdus: seq<Pdu>, ep: Endpoints, sub: (string, seq<byte>, Endpoints) -> Endpoints)
    requires |tvb| < INT32_LIMIT && Decodes(tvb, pdus) && Chained(pdus, |tvb|) && |pdus| > 1
    ensures Dissect(tvb, pdus[0].start, ep, sub) == Decoded(pdus, "5GLI", InfoColumn(pdus[0].pduType), ep)
    decreases |pdus|, 0
  {
    var p, rest := pdus[0], pdus[1..];
    assert [p] + rest == pdus;
    DecodesTail(tvb, pdus);
    ChainedTail(pdus, |tvb|);
    ChainDissects(tvb, rest, HandOff(tvb, p, ep, sub), sub);
    ChainStep(tvb, p, rest, ep, sub);
  }

  /** A PDU in front of a dissected chain that starts where the PDU says
      the next one does. */
  lemma {:induction false} ChainStep(tvb: seq<byte>, p: Pdu, rest: seq<Pdu>, ep: Endpoints, sub: (string, seq<byte>, Endpoints) -> Endpoints)
    requires 0 <= p.start <= |tvb| < INT32_LIMIT && DecodeOne(tvb, p.start) == Some(p)
    requires rest != [] && rest[0].start == p.start + p.next
    requires 0 <= rest[0].start <= |tvb|
    requires Dissect(tvb, rest[0].start, HandOff(tvb, p, ep, sub), sub)
          == Decoded(rest, "5GLI", InfoColumn(rest[0].pduType), HandOff(tvb, p, ep, sub))
    ensures Dissect(tvb, p.start, ep, sub) == Decoded([p] + rest, "5GLI", InfoColumn(p.pduType), ep)
  {
    DissectStep(tvb, p.start, p, ep, sub);
  }

  lemma DecodesTail(tvb: seq<byte>, pdus: seq<Pdu>)
    requires |tvb| < INT32_LIMIT && pdus != [] && Decodes(tvb, pdus)
    ensures Decodes(tvb, pdus[1..])
  {
    forall i | 0 <= i < |pdus[1..]|
      ensures 0 <= pdus[1..][i].start <= |tvb| && DecodeOne(tvb, pdus[1..][i].start) == Some(pdus[1..][i])
    {
      assert pdus[1..][i] == pdus[i + 1];
    }
  }

  lemma {:induction false} ChainedTail(pdus: seq<Pdu>, size: int)
    requires Chained(pdus, size) && |pdus| > 1
    ensures Chained(pdus[1..], size) && pdus[1].start == pdus[0].start + pdus[0].next
  {
    assert pdus[1..][|pdus| - 2] == pdus[|pdus| - 1];
  }

  /** Encoded frames decode where they sit. */
  lemma {:induction false} FramesDecode(pre: seq<byte>, fs: seq<Frame>, post: seq<byte>)
    requires AllFramesOk(fs) && |pre + EncodeFrames(fs) + post| < INT32_LIMIT
    ensures Decodes(pre + EncodeFrames(fs) + post, FramePdus(fs, |pre|))
  {
    FramesDecodeIn(pre + EncodeFrames(fs) + post, pre, fs, post);
  }

  lemma {:induction false} FramesDecodeIn(tvb: seq<byte>, pre: seq<byte>, fs: seq<Frame>, post: seq<byte>)
    requires AllFramesOk(fs) && tvb == pre + EncodeFrames(fs) + post && |tvb| < INT32_LIMIT
    ensures Decodes(tvb, FramePdus(fs, |pre|))
    decreases |fs|
  {
    if fs != [] {
      FramesTailOk(fs);
      var rest := EncodeFrames(fs[1..]);
      var pre' := pre + EncodeFrame(fs[0]);
      Regroup4(pre, EncodeFrame(fs[0]), rest, post);
      FramesDecodeIn(tvb, pre', fs[1..], post);
      DecodeEncodedIn(tvb, pre, fs[0], rest + post);
      FramePdusCons(fs, |pre|, |pre'|);
      DecodesCons(tvb, FramePdu(fs[0], |pre|), FramePdus(fs[1..], |pre'|), FramePdus(fs, |pre|));
    }
  }

  lemma {:induction false} FramePdusCons(fs: seq<Frame>, at: int, at': int)
    requires fs != [] && AllFramesOk(fs) && at' == at + FrameSize(fs[0])
    ensures AllFramesOk(fs[1..])
    ensures FramePdus(fs, at) == [FramePdu(fs[0], at)] + FramePdus(fs[1..], at')
  {
    FramesTailOk(fs);
    assert FramePdus(fs, at) == [FramePdu(fs[0], at)] + FramePdus(fs[1..], at + FrameSize(fs[0]));
  }

  lemma {:induction false} FramesTailOk(fs: seq<Frame>)
    requires fs != [] && AllFramesOk(fs)
    ensures AllFramesOk(fs[1..]) && |EncodeFrames(fs)| == FrameSize(fs[0]) + |EncodeFrames(fs[1..])|
  {
    forall i | 0 <= i < |fs[1..]| ensures FrameOk(fs[1..][i]) { assert fs[1..][i] == fs[i + 1]; }
  }

  /** The PDU of a frame says the next one starts right after the frame. */
  lemma FrameNext(f: Frame, at: int)
    requires FrameOk(f)
    ensures FramePdu(f, at).start == at && FramePdu(f, at).next == FrameSize(f)
  {
  }

  /** The PDUs of frames sent back to back form a chain. */
  lemma {:induction false} FramePdusLinked(fs: seq<Frame>, at: int)
    requires AllFramesOk(fs)
    ensures Linked(FramePdus(fs, at))
    decreases |fs|
  {
    if fs != [] {
      FramesTailOk(fs);
      var at' := at + FrameSize(fs[0]);
      FramePdusLinked(fs[1..], at');
      FrameNext(fs[0], at);
      if fs[1..] != [] {
        FrameNext(fs[1], at');
        assert FramePdus(fs[1..], at')[0] == FramePdu(fs[1], at');
      }
      LinkedCons(FramePdu(fs[0], at), FramePdus(fs[1..], at'));
    }
  }

  /** The last link of that chain points at the end of the frames. */
  lemma {:induction false} FramePdusEnd(fs: seq<Frame>, at: int)
    requires fs != [] && AllFramesOk(fs)
    ensures var pdus := FramePdus(fs, at);
      && pdus[0].start == at
      && pdus[|pdus| - 1].start + pdus[|pdus| - 1].next == at + |EncodeFrames(fs)|
    decreases |fs|, 1
  {
    FrameNext(fs[0], at);
    if |fs| == 1 {
      assert EncodeFrames(fs[1..]) == [];
    } else {
      FramePdusEndLonger(fs, at);
    }
  }

  lemma {:induction false} FramePdusEndLonger(fs: seq<Frame>, at: int)
    requires |fs| > 1 && AllFramesOk(fs)
    ensures var pdus := FramePdus(fs, at);
      pdus[|pdus| - 1].start + pdus[|pdus| - 1].next == at + |EncodeFrames(fs)|
    decreases |fs|, 0
  {
    FramesTailOk(fs);
    var at' := at + FrameSize(fs[0]);
    FramePdusEnd(fs[1..], at');
    var pdus := FramePdus(fs, at);
    assert pdus[|pdus| - 1] == FramePdus(fs[1..], at')[|fs| - 2];
  }

  /** Frames sent back to back dissect to their PDUs, in order, with the
      columns set from the first one and the endpoints as they were. */
  lemma {:induction false} DissectFrames(pre: seq<byte>, fs: seq<Frame>, ep: Endpoints, sub: (string, seq<byte>, Endpoints) -> Endpoints)
    requires fs != [] && AllFramesOk(fs) && |pre + EncodeFrames(fs)| < INT32_LIMIT
    ensures Dissect(pre + EncodeFrames(fs), |pre|, ep, sub)
         == Decoded(FramePdus(fs, |pre|), "5GLI", InfoColumn(fs[0].pduType), ep)
  {
    var tvb := pre + EncodeFrames(fs);
    assert tvb == pre + EncodeFrames(fs) + [];
    FramesDecode(pre, fs, []);
    FramePdusLinked(fs, |pre|);
    FramePdusEnd(fs, |pre|);
    ChainDissects(tvb, FramePdus(fs, |pre|), ep, sub);
  }

  // ---------------------------------------------------------------------
  // The heuristic entry point

  /** What `dissect_li5g_heur` checks before it claims a buffer: a whole
      fixed header, version 1 and one of the four PDU types. */
  predicate LooksLikeLi5g(tvb: seq<byte>) {
    |tvb| >= HEADER_LEN_MIN && U16(tvb, 0) == 1 && 1 <= U16(tvb, 2) <= 4
  }

  datatype Verdict = Rejected | Accepted(outcome: Outcome)

  /** `dissect_li5g_heur`: refuse the buffer, or claim it and dissect it
      from its start. */
  function Heuristic(tvb: seq<byte>, ep: Endpoints, sub: (string, seq<byte>, Endpoints) -> Endpoints): (v: Verdict)
    requires |tvb| < INT32_LIMIT
    ensures v.Rejected? ==> |tvb| < HEADER_LEN_MIN || U16(tvb, 0) != 1 || U16(tvb, 2) < 1 || U16(tvb, 2) > 4
  {
    if LooksLikeLi5g(tvb) then Accepted(Dissect(tvb, 0, ep, sub)) else Rejected
  }

  /** The labels of the four PDU types, which a claimed buffer's info
      column shows. */
  lemma PduTypeNames(t: int)
    requires 1 <= t <= 4
    ensures InfoColumn(t) == PDU_TYPE_VALS[t - 1].text && InfoColumn(t) != ""
  {
  }

  /** A claimed buffer that dissects to the end names its first PDU's type
      in the info column: one of the four labels, never empty. */
  lemma HeuristicNamesPdu(tvb: seq<byte>, ep: Endpoints, sub: (string, seq<byte>, Endpoints) -> Endpoints)
    requires |tvb| < INT32_LIMIT
    requires Heuristic(tvb, ep, sub).Accepted? && Heuristic(tvb, ep, sub).outcome.Decoded?
    ensures
      var o := Heuristic(tvb, ep, sub).outcome;
      && o.protocol == "5GLI" && o.endpoints == ep
      && o.info == PDU_TYPE_VALS[U16(tvb, 2) - 1].text && o.info != ""
  {
    PduTypeNames(U16(tvb, 2));
  }

  /** Frames that start with a PDU of one of the four types are claimed,
      and dissect to their PDUs. */
  lemma {:induction false} HeuristicAcceptsFrames(fs: seq<Frame>, ep: Endpoints, sub: (string, seq<byte>, Endpoints) -> Endpoints)
    requires fs != [] && AllFramesOk(fs) && |EncodeFrames(fs)| < INT32_LIMIT
    requires 1 <= fs[0].pduType <= 4
    ensures Heuristic(EncodeFrames(fs), ep, sub)
         == Accepted(Decoded(FramePdus(fs, 0), "5GLI", PDU_TYPE_VALS[fs[0].pduType - 1].text, ep))
  {
    var tvb := EncodeFrames(fs);
    assert tvb == [] + EncodeFrames(fs);
    DissectFrames([], fs, ep, sub);
    FramesTailOk(fs);
    assert tvb == [] + EncodeFrame(fs[0]) + EncodeFrames(fs[1..]);
    FrameReads(tvb, [], fs[0], EncodeFrames(fs[1..]));
    PduTypeNames(fs[0].pduType);
  }

  /** A buffer shorter than the fixed header, or with another version or
      PDU type, is refused whatever else it holds. */
  lemma HeuristicRejects(tvb: seq<byte>, ep: Endpoints, sub: (string, seq<byte>, Endpoints) -> Endpoints)
    requires |tvb| < INT32_LIMIT
    requires |tvb| < HEADER_LEN_MIN || U16(tvb, 0) != 1 || U16(tvb, 2) == 0 || U16(tvb, 2) > 4
    ensures Heuristic(tvb, ep, sub) == Rejected
  {
  }
}
