/**
 * The SDP data-element decoder of btsdp.c (section 3 of Part B, Volume 3
 * of the Bluetooth Core Specification v4.0).
 *
 * A data element is a header byte (type descriptor in the top five bits,
 * size descriptor in the low three), an optional big-endian length, and a
 * payload. Sequences and alternatives hold further elements.
 *
 * The C decoder is given only a pointer: it never learns how many bytes
 * there are. Here the bytes it may touch are a sequence `data`, and a read
 * past its end is the distinct outcome `Overrun` (undefined behaviour in
 * the C code), never a value.
 */
module BtSdp {
  import opened BtTypes

  // Type descriptors of `enum bt_sdp_data_element_type`.
  const NIL: nat := 0
  const UINT: nat := 1
  const INT: nat := 2
  const UUID: nat := 3
  const TEXT: nat := 4
  const BOOL: nat := 5
  const SEQ: nat := 6
  const ALT: nat := 7
  const URL: nat := 8

  /** The contents of the element's value union. */
  datatype Value =
    | NoValue
      /** UINT/INT: the payload in host (little-endian) byte order. */
    | Number(host: seq<Byte>)
      /** UUID: the payload as it came off the wire. */
    | UuidValue(raw: seq<Byte>)
      /** TEXT/URL: a copy of the payload, or a null pointer when it is empty. */
    | Text(text: Option<seq<Byte>>)
    | Boolean(b: Byte)
      /** SEQ/ALT: the chain of child elements, in order. */
    | Sequence(children: seq<Element>)

  /** `bt_sdp_element_t`. */
  datatype Element = Element(typ: nat, sizeDesc: nat, size: nat, recordSize: nat, value: Value)

  /** What a decoding step ends in: a value, an error code, or a read past the bytes. */
  datatype Outcome<+T> = Done(value: T) | Fail(err: BtErr) | Overrun

  /** A decoded header: type, size descriptor, payload size and header length. */
  datatype Header = Header(typ: nat, sizeDesc: nat, size: nat, len: nat)

  /** `1 << sizeDesc`: the implicit payload size of size descriptors 0-4. */
  function Pow2(n: nat): (r: nat)
    ensures r >= 1
  {
    if n == 0 then 1 else 2 * Pow2(n - 1)
  }

  /** Bytes of explicit length after the header byte for size descriptors 5, 6 and 7. */
  function LengthWidth(sizeDesc: nat): nat
  {
    if sizeDesc == 5 then 1 else if sizeDesc == 6 then 2 else 4
  }

  /** Total length of the summed record sizes of a run of elements. */
  function Extent(cs: seq<Element>): nat
  {
    if cs == [] then 0 else cs[0].recordSize + Extent(cs[1..])
  }

  /** The sequence in reverse order. */
  function Reverse(s: seq<Byte>): (r: seq<Byte>)
    ensures |r| == |s|
  {
    if s == [] then [] else Reverse(s[1..]) + [s[0]]
  }

  /** Position `k` of the reversal holds position `|s| - 1 - k` of the original. */
  lemma {:induction false} ReverseAt(s: seq<Byte>)
    ensures forall k :: 0 <= k < |s| ==> Reverse(s)[k] == s[|s| - 1 - k]
  {
    if s != [] {
      ReverseAt(s[1..]);
    }
  }

  /**
   * The header at `pos`: a NIL element has size 0 and a one-byte header;
   * any other type has size `1 << sizeDesc` for descriptors 0-4, or reads
   * a 1-, 2- or 4-byte big-endian length for 5, 6 and 7. `None` is a
   * length that runs past the bytes.
   */
  function ReadHeader(data: seq<Byte>, pos: nat): (r: Option<Header>)
    requires pos < |data|
    ensures r.Some? ==> pos + r.value.len <= |data| && 1 <= r.value.len
    ensures r.Some? ==> r.value.typ == data[pos] / 8 && r.value.sizeDesc == data[pos] % 8
  {
    var typ := data[pos] / 8;
    var sizeDesc := data[pos] % 8;
    if typ == NIL then Some(Header(typ, sizeDesc, 0, 1))
    else if sizeDesc < 5 then Some(Header(typ, sizeDesc, Pow2(sizeDesc), 1))
    else
      var n := LengthWidth(sizeDesc);
      if pos + 1 + n > |data| then None
      else Some(Header(typ, sizeDesc, BigEndian(data[pos + 1..pos + 1 + n]), 1 + n))
  }

  /**
   * `bt_sdp_read_data_element`: the element whose header is at `pos`. A
   * successful element lies within the bytes and is at least one byte long.
   */
  function ReadElement(data: seq<Byte>, pos: nat): (r: Outcome<Element>)
    requires pos <= |data|
    ensures r.Done? ==> 1 <= r.value.recordSize && pos + r.value.recordSize <= |data|
    ensures r.Fail? ==> r.err == ErrSdpBadRecord
    decreases |data| - pos, 2
  {
    if pos == |data| then Overrun
    else
      match ReadHeader(data, pos)
      case None => Overrun
      case Some(h) => ReadBody(data, pos, h)
  }

  /**
   * The element with header `h` at `pos`: its record size is the header
   * length plus the payload size, its value what the per-type rules give.
   */
  function ReadBody(data: seq<Byte>, pos: nat, h: Header): (r: Outcome<Element>)
    requires pos < |data| && ReadHeader(data, pos) == Some(h)
    ensures r.Done? ==> 1 <= r.value.recordSize && pos + r.value.recordSize <= |data|
    ensures r.Done? ==> r.value.typ == h.typ && r.value.sizeDesc == h.sizeDesc && r.value.size == h.size
    ensures r.Fail? ==> r.err == ErrSdpBadRecord
    decreases |data| - pos, 1
  {
    match ReadValue(data, pos, h)
    case Done(v) => Done(Element(h.typ, h.sizeDesc, h.size, h.len + h.size, v))
    case Fail(e) => Fail(e)
    case Overrun => Overrun
  }

  /** The `switch` of `bt_sdp_read_data_element`: the per-type rules on the payload. */
  function ReadValue(data: seq<Byte>, pos: nat, h: Header): (r: Outcome<Value>)
    requires pos < |data| && ReadHeader(data, pos) == Some(h)
    ensures r.Done? ==> pos + h.len + h.size <= |data|
    ensures r.Fail? ==> r.err == ErrSdpBadRecord
    ensures (h.typ == NIL && h.sizeDesc != 0) || h.typ > URL ==> r == Fail(ErrSdpBadRecord)
    decreases |data| - pos, 0
  {
    var p := pos + h.len;
    if h.typ == NIL then
      if h.sizeDesc != 0 then Fail(ErrSdpBadRecord) else Done(NoValue)
    else if h.typ == UINT || h.typ == INT then ReadNumber(data, p, h)
    else if h.typ == UUID then ReadUuid(data, p, h)
    else if h.typ == TEXT || h.typ == URL then ReadText(data, p, h)
    else if h.typ == BOOL then ReadBool(data, p, h)
    else if h.typ == SEQ || h.typ == ALT then
      match ReadRun(data, p, h.size, 0)
      case Done(cs) => Done(Sequence(cs))
      case Fail(e) => Fail(e)
      case Overrun => Overrun
    else
      Fail(ErrSdpBadRecord)
  }

  /** UINT/INT: descriptors 0-4 only; the payload is swapped to host order when longer than a byte. */
  function ReadNumber(data: seq<Byte>, p: nat, h: Header): (r: Outcome<Value>)
    requires p <= |data|
    ensures r.Done? ==> p + h.size <= |data| && r.value.Number? && |r.value.host| == h.size
    ensures r.Fail? <==> h.sizeDesc > 4
    ensures r.Fail? ==> r.err == ErrSdpBadRecord
  {
    if h.sizeDesc > 4 then Fail(ErrSdpBadRecord)
    else if p + h.size > |data| then Overrun
    else
      var payload := data[p..p + h.size];
      Done(Number(if h.size > 1 then Reverse(payload) else payload))
  }

  /** UUID: descriptors 1, 2 and 4 only (16, 32 and 128 bits); the payload is kept as sent. */
  function ReadUuid(data: seq<Byte>, p: nat, h: Header): (r: Outcome<Value>)
    requires p <= |data|
    ensures r.Done? ==> p + h.size <= |data| && r == Done(UuidValue(data[p..p + h.size]))
    ensures r.Fail? <==> h.sizeDesc !in {1, 2, 4}
    ensures r.Fail? ==> r.err == ErrSdpBadRecord
  {
    if h.sizeDesc != 1 && h.sizeDesc != 2 && h.sizeDesc != 4 then Fail(ErrSdpBadRecord)
    else if p + h.size > |data| then Overrun
    else Done(UuidValue(data[p..p + h.size]))
  }

  /** TEXT/URL: descriptors 5-7 only; an empty string has no buffer. */
  function ReadText(data: seq<Byte>, p: nat, h: Header): (r: Outcome<Value>)
    requires p <= |data|
    ensures r.Done? ==> p + h.size <= |data| && r.value.Text? && (r.value.text.None? <==> h.size == 0)
    ensures r.Fail? <==> h.sizeDesc < 5
    ensures r.Fail? ==> r.err == ErrSdpBadRecord
  {
    if h.sizeDesc < 5 then Fail(ErrSdpBadRecord)
    else if h.size == 0 then Done(Text(None))
    else if p + h.size > |data| then Overrun
    else Done(Text(Some(data[p..p + h.size])))
  }

  /** BOOL: descriptor 0 only; the value is the single payload byte. */
  function ReadBool(data: seq<Byte>, p: nat, h: Header): (r: Outcome<Value>)
    requires p <= |data|
    requires h.sizeDesc == 0 ==> h.size == 1
    ensures r.Done? ==> p < |data| && p + h.size <= |data| && r == Done(Boolean(data[p]))
    ensures r.Fail? <==> h.sizeDesc != 0
    ensures r.Fail? ==> r.err == ErrSdpBadRecord
  {
    if h.sizeDesc != 0 then Fail(ErrSdpBadRecord)
    else if p >= |data| then Overrun
    else Done(Boolean(data[p]))
  }

  /**
   * The do-while loop of a SEQ/ALT element: decode a child at `p`, add its
   * record size to the running total `i`, and stop once the total reaches
   * `size`. At least one child is always decoded; the first failing child's
   * outcome is returned unchanged.
   */
  function ReadRun(data: seq<Byte>, p: nat, size: nat, i: nat): (r: Outcome<seq<Element>>)
    requires p <= |data|
    ensures r.Done? ==> |r.value| >= 1 && p + Extent(r.value) <= |data| && i + Extent(r.value) >= size
    ensures r.Fail? ==> r.err == ErrSdpBadRecord
    decreases |data| - p, 3
  {
    match ReadElement(data, p)
    case Overrun => Overrun
    case Fail(e) => Fail(e)
    case Done(c) =>
      if i + c.recordSize >= size then Done([c])
      else
        match ReadRun(data, p + c.recordSize, size, i + c.recordSize)
        case Overrun => Overrun
        case Fail(e) => Fail(e)
        case Done(cs) =>
          assert ([c] + cs)[1..] == cs;
          Done([c] + cs)
  }

  // ---------------------------------------------------------------------
  // Integers: the byte swap
  // ---------------------------------------------------------------------

  /** The number whose little-endian (least significant first) bytes are `s`. */
  function LittleEndian(s: seq<Byte>): nat
  {
    if s == [] then 0 else s[0] + 256 * LittleEndian(s[1..])
  }

  /** Reversing big-endian wire bytes gives the host's little-endian bytes of the same number. */
  lemma {:induction false} ReverseSwapsEndianness(w: seq<Byte>)
    ensures LittleEndian(Reverse(w)) == BigEndian(w)
  {
    if w != [] {
      var n := |w|;
      var r := Reverse(w);
      ReverseAt(w);
      ReverseAt(w[..n - 1]);
      assert r[0] == w[n - 1];
      assert r[1..] == Reverse(w[..n - 1]);
      ReverseSwapsEndianness(w[..n - 1]);
    }
  }

  lemma ReverseInvolution(s: seq<Byte>)
    ensures Reverse(Reverse(s)) == s
  {
    ReverseAt(s);
    ReverseAt(Reverse(s));
  }

  /**
   * A decoded UINT/INT element holds, as a host little-endian number, the
   * big-endian number of its payload bytes.
   */
  lemma NumberIsWireValue(data: seq<Byte>, pos: nat)
    requires pos <= |data| && ReadElement(data, pos).Done?
    requires ReadElement(data, pos).value.value.Number?
    ensures var e := ReadElement(data, pos).value;
      e.recordSize == 1 + e.size && pos + 1 + e.size <= |data| &&
      LittleEndian(e.value.host) == BigEndian(data[pos + 1..pos + 1 + e.size])
  {
    var e := ReadElement(data, pos).value;
    var h := ReadHeader(data, pos).value;
    assert ReadValue(data, pos, h) == Done(e.value);
    assert h.typ == UINT || h.typ == INT;
    var w := data[pos + 1..pos + 1 + e.size];
    if e.size > 1 {
      ReverseSwapsEndianness(w);
    } else if e.size == 1 {
      assert w[..0] == [] && w[1..] == [];
    }
  }

  // ---------------------------------------------------------------------
  // The encoding the decoder inverts
  // ---------------------------------------------------------------------

  function Power256(n: nat): (r: nat)
    ensures r >= 1
  {
    if n == 0 then 1 else 256 * Power256(n - 1)
  }

  /** `v` as `n` big-endian bytes. */
  function BigEndianBytes(v: nat, n: nat): (r: seq<Byte>)
    requires v < Power256(n)
    ensures |r| == n && BigEndian(r) == v
  {
    if n == 0 then []
    else
      var r := BigEndianBytes(v / 256, n - 1) + [v % 256];
      assert r[..n - 1] == BigEndianBytes(v / 256, n - 1);
      r
  }

  /** Length of the header of an element of this type and size descriptor. */
  function HeaderLen(typ: nat, sizeDesc: nat): nat
  {
    if typ == NIL || sizeDesc < 5 then 1 else 1 + LengthWidth(sizeDesc)
  }

  /** The header fields can be written as a header (the size fits its descriptor). */
  predicate HeaderFits(typ: nat, sizeDesc: nat, size: nat)
  {
    typ < 32 && sizeDesc < 8 &&
    (typ == NIL ==> size == 0) &&
    (typ != NIL && sizeDesc < 5 ==> size == Pow2(sizeDesc)) &&
    (typ != NIL && sizeDesc >= 5 ==> size < Power256(LengthWidth(sizeDesc)))
  }

  /** The header bytes of an element. */
  function HeaderBytes(typ: nat, sizeDesc: nat, size: nat): (r: seq<Byte>)
    requires HeaderFits(typ, sizeDesc, size)
    ensures |r| == HeaderLen(typ, sizeDesc)
  {
    [typ * 8 + sizeDesc] + (if typ == NIL || sizeDesc < 5 then [] else BigEndianBytes(size, LengthWidth(sizeDesc)))
  }

  /**
   * The elements the decoder can produce from a well-formed record: sizes
   * agree with headers and payloads, each type's descriptor rules hold,
   * and a sequence's children fill its declared size exactly.
   */
  predicate WellFormed(e: Element)
    decreases e
  {
    HeaderFits(e.typ, e.sizeDesc, e.size) &&
    e.recordSize == HeaderLen(e.typ, e.sizeDesc) + e.size &&
    match e.value
    case NoValue => e.typ == NIL && e.sizeDesc == 0
    case Number(host) => (e.typ == UINT || e.typ == INT) && e.sizeDesc <= 4 && |host| == e.size
    case UuidValue(raw) =>
      e.typ == UUID && (e.sizeDesc == 1 || e.sizeDesc == 2 || e.sizeDesc == 4) && |raw| == e.size
    case Text(t) =>
      (e.typ == TEXT || e.typ == URL) && e.sizeDesc >= 5 &&
      (t.None? <==> e.size == 0) && (t.Some? ==> |t.value| == e.size)
    case Boolean(_) => e.typ == BOOL && e.sizeDesc == 0
    case Sequence(cs) =>
      (e.typ == SEQ || e.typ == ALT) && |cs| >= 1 && Extent(cs) == e.size && AllWellFormed(cs)
  }

  /** Every element of the run is well formed. */
  predicate AllWellFormed(cs: seq<Element>)
    decreases cs
  {
    cs == [] || (WellFormed(cs[0]) && AllWellFormed(cs[1..]))
  }

  /** The bytes of an element: header, then payload. */
  function Encode(e: Element): seq<Byte>
    requires WellFormed(e)
    decreases e, 2
  {
    HeaderBytes(e.typ, e.sizeDesc, e.size) + Payload(e)
  }

  /** The payload bytes of an element (integers big-endian, as on the wire). */
  function Payload(e: Element): seq<Byte>
    requires WellFormed(e)
    decreases e, 1
  {
    match e.value
    case NoValue => []
    case Number(host) => if e.size > 1 then Reverse(host) else host
    case UuidValue(raw) => raw
    case Text(t) => if t.Some? then t.value else []
    case Boolean(b) => [b]
    case Sequence(cs) => EncodeAll(cs)
  }

  /** The bytes of a run of elements, back to back. */
  function EncodeAll(cs: seq<Element>): seq<Byte>
    requires AllWellFormed(cs)
    decreases cs, 0
  {
    if cs == [] then [] else Encode(cs[0]) + EncodeAll(cs[1..])
  }

  lemma {:induction false} EncodeLength(e: Element)
    requires WellFormed(e)
    ensures |Payload(e)| == e.size
    ensures |Encode(e)| == e.recordSize
    decreases e, 1
  {
    if e.value.Sequence? {
      EncodeAllLength(e.value.children);
    } else if e.value.Number? && e.size > 1 {
      assert |Reverse(e.value.host)| == e.size;
    }
  }

  lemma {:induction false} EncodeAllLength(cs: seq<Element>)
    requires AllWellFormed(cs)
    ensures |EncodeAll(cs)| == Extent(cs)
    decreases cs, 0
  {
    if cs != [] {
      EncodeLength(cs[0]);
      EncodeAllLength(cs[1..]);
    }
  }

  /** `bytes` sit in `data` starting at `p`. */
  predicate EncodedAt(data: seq<Byte>, p: nat, bytes: seq<Byte>)
  {
    p + |bytes| <= |data| && data[p..p + |bytes|] == bytes
  }

  /** Bytes written back to back sit back to back. */
  lemma EncodedAtSplit(data: seq<Byte>, p: nat, a: seq<Byte>, b: seq<Byte>)
    requires EncodedAt(data, p, a + b)
    ensures EncodedAt(data, p, a) && EncodedAt(data, p + |a|, b)
  {
    assert data[p..p + |a|] == (a + b)[..|a|];
    assert data[p + |a|..p + |a| + |b|] == (a + b)[|a|..];
  }

  /** The header bytes read back as the header they were written from. */
  lemma HeaderRoundTrip(data: seq<Byte>, p: nat, typ: nat, sizeDesc: nat, size: nat)
    requires HeaderFits(typ, sizeDesc, size)
    requires EncodedAt(data, p, HeaderBytes(typ, sizeDesc, size))
    ensures p < |data|
    ensures ReadHeader(data, p) == Some(Header(typ, sizeDesc, size, HeaderLen(typ, sizeDesc)))
  {
    var hb := HeaderBytes(typ, sizeDesc, size);
    assert data[p] == hb[0] == typ * 8 + sizeDesc;
    assert data[p] / 8 == typ && data[p] % 8 == sizeDesc;
    if typ != NIL && sizeDesc >= 5 {
      var n := LengthWidth(sizeDesc);
      assert data[p + 1..p + 1 + n] == hb[1..] == BigEndianBytes(size, n);
    }
  }

  /** The per-type rules accept the payload of a well-formed element. */
  lemma BodyDecodes(data: seq<Byte>, pos: nat, e: Element)
    requires WellFormed(e)
    requires pos < |data|
    requires ReadHeader(data, pos) == Some(Header(e.typ, e.sizeDesc, e.size, HeaderLen(e.typ, e.sizeDesc)))
    requires pos + e.recordSize <= |data|
    requires data[pos + HeaderLen(e.typ, e.sizeDesc)..pos + e.recordSize] == Payload(e)
    requires e.value.Sequence? ==> ReadRun(data, pos + HeaderLen(e.typ, e.sizeDesc), e.size, 0) == Done(e.value.children)
    ensures ReadValue(data, pos, Header(e.typ, e.sizeDesc, e.size, HeaderLen(e.typ, e.sizeDesc))) == Done(e.value)
  {
    match e.value
    case NoValue =>
    case Number(_) => NumberBodyDecodes(data, pos, e);
    case UuidValue(_) => UuidBodyDecodes(data, pos, e);
    case Text(_) => TextBodyDecodes(data, pos, e);
    case Boolean(_) => BoolBodyDecodes(data, pos, e);
    case Sequence(cs) =>
  }

  lemma NumberBodyDecodes(data: seq<Byte>, pos: nat, e: Element)
    requires WellFormed(e)
    requires pos < |data|
    requires ReadHeader(data, pos) == Some(Header(e.typ, e.sizeDesc, e.size, HeaderLen(e.typ, e.sizeDesc)))
    requires pos + e.recordSize <= |data|
    requires data[pos + HeaderLen(e.typ, e.sizeDesc)..pos + e.recordSize] == Payload(e)
    requires e.value.Number?
    ensures ReadValue(data, pos, Header(e.typ, e.sizeDesc, e.size, HeaderLen(e.typ, e.sizeDesc))) == Done(e.value)
  {
    var host := e.value.host;
    assert e.typ == UINT || e.typ == INT;
    assert e.sizeDesc <= 4 && HeaderLen(e.typ, e.sizeDesc) == 1;
    NumberDecodes(data, pos + 1, Header(e.typ, e.sizeDesc, e.size, 1), host);
  }

  /** Wire bytes that are `host` in network order read back as `host`. */
  lemma NumberDecodes(data: seq<Byte>, p: nat, h: Header, host: seq<Byte>)
    requires h.sizeDesc <= 4 && |host| == h.size && p + h.size <= |data|
    requires data[p..p + h.size] == if h.size > 1 then Reverse(host) else host
    ensures ReadNumber(data, p, h) == Done(Number(host))
  {
    if h.size > 1 {
      ReverseInvolution(host);
    }
  }

  lemma UuidBodyDecodes(data: seq<Byte>, pos: nat, e: Element)
    requires WellFormed(e)
    requires pos < |data|
    requires ReadHeader(data, pos) == Some(Header(e.typ, e.sizeDesc, e.size, HeaderLen(e.typ, e.sizeDesc)))
    requires pos + e.recordSize <= |data|
    requires data[pos + HeaderLen(e.typ, e.sizeDesc)..pos + e.recordSize] == Payload(e)
    requires e.value.UuidValue?
    ensures ReadValue(data, pos, Header(e.typ, e.sizeDesc, e.size, HeaderLen(e.typ, e.sizeDesc))) == Done(e.value)
  {
  }

  lemma TextBodyDecodes(data: seq<Byte>, pos: nat, e: Element)
    requires WellFormed(e)
    requires pos < |data|
    requires ReadHeader(data, pos) == Some(Header(e.typ, e.sizeDesc, e.size, HeaderLen(e.typ, e.sizeDesc)))
    requires pos + e.recordSize <= |data|
    requires data[pos + HeaderLen(e.typ, e.sizeDesc)..pos + e.recordSize] == Payload(e)
    requires e.value.Text?
    ensures ReadValue(data, pos, Header(e.typ, e.sizeDesc, e.size, HeaderLen(e.typ, e.sizeDesc))) == Done(e.value)
  {
  }

  lemma BoolBodyDecodes(data: seq<Byte>, pos: nat, e: Element)
    requires WellFormed(e)
    requires pos < |data|
    requires ReadHeader(data, pos) == Some(Header(e.typ, e.sizeDesc, e.size, HeaderLen(e.typ, e.sizeDesc)))
    requires pos + e.recordSize <= |data|
    requires data[pos + HeaderLen(e.typ, e.sizeDesc)..pos + e.recordSize] == Payload(e)
    requires e.value.Boolean?
    ensures ReadValue(data, pos, Header(e.typ, e.sizeDesc, e.size, HeaderLen(e.typ, e.sizeDesc))) == Done(e.value)
  {
    var p := pos + HeaderLen(e.typ, e.sizeDesc);
    assert data[p] == data[p..pos + e.recordSize][0];
  }

  /** Decoding the encoding of a well-formed element gives the element back. */
  lemma {:induction false} DecodeEncode(pre: seq<Byte>, e: Element, post: seq<Byte>)
    requires WellFormed(e)
    ensures |pre| <= |pre + Encode(e) + post|
    ensures ReadElement(pre + Encode(e) + post, |pre|) == Done(e)
  {
    var data := pre + Encode(e) + post;
    assert data[|pre|..|pre| + |Encode(e)|] == Encode(e);
    DecodeEncodedAt(data, |pre|, e);
  }

  /** A well-formed element's encoding, wherever it sits, decodes to the element. */
  lemma {:induction false} DecodeEncodedAt(data: seq<Byte>, p: nat, e: Element)
    requires WellFormed(e) && EncodedAt(data, p, Encode(e))
    ensures p <= |data| && ReadElement(data, p) == Done(e)
    decreases e, 1
  {
    var hb := HeaderBytes(e.typ, e.sizeDesc, e.size);
    var pl := Payload(e);
    EncodeLength(e);
    EncodedAtSplit(data, p, hb, pl);
    HeaderRoundTrip(data, p, e.typ, e.sizeDesc, e.size);
    if e.value.Sequence? {
      RunDecodeEncodedAt(data, p + |hb|, e.value.children, e.size, 0);
    }
    BodyDecodes(data, p, e);
    ElementFromValue(data, p, e);
  }

  /** A header and a value that agree with a well-formed element make that element. */
  lemma ElementFromValue(data: seq<Byte>, pos: nat, e: Element)
    requires WellFormed(e) && pos < |data|
    requires ReadHeader(data, pos) == Some(Header(e.typ, e.sizeDesc, e.size, HeaderLen(e.typ, e.sizeDesc)))
    requires ReadValue(data, pos, Header(e.typ, e.sizeDesc, e.size, HeaderLen(e.typ, e.sizeDesc))) == Done(e.value)
    ensures ReadElement(data, pos) == Done(e)
  {
  }

  /** A run of encoded children whose sizes fill `size` decodes to those children. */
  lemma {:induction false} RunDecodeEncodedAt(data: seq<Byte>, p: nat, cs: seq<Element>, size: nat, i: nat)
    requires |cs| >= 1 && AllWellFormed(cs)
    requires EncodedAt(data, p, EncodeAll(cs))
    requires i + Extent(cs) == size
    ensures p <= |data| && ReadRun(data, p, size, i) == Done(cs)
    decreases cs, 0
  {
    var c := cs[0];
    var tl := cs[1..];
    AllWellFormedCons(cs);
    assert EncodeAll(cs) == Encode(c) + EncodeAll(tl);
    EncodedAtSplit(data, p, Encode(c), EncodeAll(tl));
    EncodeLength(c);
    DecodeEncodedAt(data, p, c);
    assert Extent(cs) == c.recordSize + Extent(tl);
    if |cs| > 1 {
      ExtentPositive(tl);
      var q, j := p + c.recordSize, i + c.recordSize;
      RunDecodeEncodedAt(data, q, tl, size, j);
      RunStep(data, p, q, size, i, j, c, tl);
      assert [c] + tl == cs;
    } else {
      assert tl == [];
      RunStop(data, p, size, i, c);
      assert [c] == cs;
    }
  }

  /** The head and the tail of a well-formed run are well formed. */
  lemma AllWellFormedCons(cs: seq<Element>)
    requires |cs| >= 1 && AllWellFormed(cs)
    ensures WellFormed(cs[0]) && AllWellFormed(cs[1..])
  {
  }

  /** A nonempty run of well-formed elements takes up at least one byte. */
  lemma ExtentPositive(cs: seq<Element>)
    requires |cs| >= 1 && AllWellFormed(cs)
    ensures Extent(cs) >= 1
  {
    assert WellFormed(cs[0]);
  }

  /** The turn of the sequence loop that stops: the child reaches the declared size. */
  lemma RunStop(data: seq<Byte>, p: nat, size: nat, i: nat, c: Element)
    requires p <= |data| && ReadElement(data, p) == Done(c) && i + c.recordSize >= size
    ensures ReadRun(data, p, size, i) == Done([c])
  {
  }

  /** A turn of the sequence loop that goes on to the next child. */
  lemma RunStep(data: seq<Byte>, p: nat, q: nat, size: nat, i: nat, j: nat, c: Element, cs: seq<Element>)
    requires p <= |data| && ReadElement(data, p) == Done(c)
    requires q == p + c.recordSize && j == i + c.recordSize && j < size
    requires q <= |data| && ReadRun(data, q, size, j) == Done(cs)
    ensures ReadRun(data, p, size, i) == Done([c] + cs)
  {
  }

  // ---------------------------------------------------------------------
  // Bytes past the element do not matter
  // ---------------------------------------------------------------------

  /** `d` is the start of `big`. */
  predicate IsPrefix(d: seq<Byte>, big: seq<Byte>)
  {
    |d| <= |big| && big[..|d|] == d
  }

  lemma SliceOfPrefix(d: seq<Byte>, big: seq<Byte>, a: nat, b: nat)
    requires IsPrefix(d, big) && a <= b <= |d|
    ensures big[a..b] == d[a..b]
  {
    forall k | 0 <= k < b - a
      ensures big[a..b][k] == d[a..b][k]
    {
      assert big[a + k] == big[..|d|][a + k];
    }
  }

  lemma HeaderExtend(d: seq<Byte>, big: seq<Byte>, p: nat)
    requires IsPrefix(d, big) && p < |d| && ReadHeader(d, p).Some?
    ensures p < |big| && ReadHeader(big, p) == ReadHeader(d, p)
  {
    assert big[p] == big[..|d|][p];
    var sizeDesc := d[p] % 8;
    if d[p] / 8 != NIL && sizeDesc >= 5 {
      var n := LengthWidth(sizeDesc);
      var e := p + 1 + n;
      SliceOfPrefix(d, big, p + 1, e);
    }
  }

  /**
   * An element that decodes, or fails, within `d` decodes, or fails, the
   * same way with any bytes after `d`: the decoder reads nothing past it.
   */
  lemma {:induction false} ElementExtend(d: seq<Byte>, big: seq<Byte>, p: nat)
    requires IsPrefix(d, big) && p <= |d| && !ReadElement(d, p).Overrun?
    ensures p <= |big| && ReadElement(big, p) == ReadElement(d, p)
    decreases |d| - p, 2
  {
    var h := ReadHeader(d, p).value;
    HeaderExtend(d, big, p);
    ValueExtend(d, big, p, h);
  }

  lemma {:induction false} ValueExtend(d: seq<Byte>, big: seq<Byte>, pos: nat, h: Header)
    requires IsPrefix(d, big) && pos < |d| && ReadHeader(d, pos) == Some(h)
    requires pos < |big| && ReadHeader(big, pos) == Some(h)
    requires !ReadValue(d, pos, h).Overrun?
    ensures ReadValue(big, pos, h) == ReadValue(d, pos, h)
    decreases |d| - pos, 1
  {
    var p := pos + h.len;
    var q := p + h.size;
    if h.typ == SEQ || h.typ == ALT {
      RunExtend(d, big, p, h.size, 0);
    } else if h.typ == BOOL {
      if p < |d| {
        assert big[p] == big[..|d|][p];
      }
    } else if q <= |d| {
      SliceOfPrefix(d, big, p, q);
    }
  }

  lemma {:induction false} RunExtend(d: seq<Byte>, big: seq<Byte>, p: nat, size: nat, i: nat)
    requires IsPrefix(d, big) && p <= |d| && !ReadRun(d, p, size, i).Overrun?
    ensures p <= |big| && ReadRun(big, p, size, i) == ReadRun(d, p, size, i)
    decreases |d| - p, 3
  {
    ElementExtend(d, big, p);
    var r := ReadElement(d, p);
    if r.Done? {
      var q, j := p + r.value.recordSize, i + r.value.recordSize;
      if j < size {
        RunExtend(d, big, q, size, j);
      }
    }
  }

  // ---------------------------------------------------------------------
  // The sequence loop stops at the first child that reaches the size
  // ---------------------------------------------------------------------

  /**
   * Every child but the last of a decoded sequence starts and ends short
   * of the declared size; only the last one reaches it (and may overshoot).
   */
  lemma {:induction false} RunStopsAtFirstReach(data: seq<Byte>, p: nat, size: nat, i: nat)
    requires p <= |data| && ReadRun(data, p, size, i).Done?
    ensures var cs := ReadRun(data, p, size, i).value;
      (|cs| > 1 ==> i + Extent(cs[..|cs| - 1]) < size) && size <= i + Extent(cs)
    decreases |data| - p
  {
    var cs := ReadRun(data, p, size, i).value;
    var c := ReadElement(data, p).value;
    var q, j := p + c.recordSize, i + c.recordSize;
    if j < size {
      var tl := ReadRun(data, q, size, j).value;
      RunStopsAtFirstReach(data, q, size, j);
      assert cs == [c] + tl;
      assert cs[..|cs| - 1] == [c] + tl[..|tl| - 1];
      if |tl| == 1 {
        assert tl[..0] == [];
      }
      ExtentCons(c, tl[..|tl| - 1]);
      ExtentCons(c, tl);
    } else {
      assert cs == [c];
      ExtentCons(c, []);
    }
  }

  lemma ExtentCons(c: Element, cs: seq<Element>)
    ensures Extent([c] + cs) == c.recordSize + Extent(cs)
  {
    assert ([c] + cs)[1..] == cs;
  }

  // ---------------------------------------------------------------------
  // bt_sdp_parse_record
  // ---------------------------------------------------------------------

  /**
   * `bt_sdp_parse_record`: a NULL buffer, a length that is not positive or
   * a NULL output record is `ErrBadParam`; otherwise the root element is
   * decoded from the start of the buffer. `data` is every byte the pointer
   * reaches; `length` is checked for sign and then not consulted again.
   */
  function ParseRecord(data: Option<seq<Byte>>, length: int, outGiven: bool): (r: Outcome<Element>)
    ensures r == Fail(ErrBadParam) <==> data.None? || length <= 0 || !outGiven
    ensures r.Fail? ==> r.err == ErrBadParam || r.err == ErrSdpBadRecord
    ensures r.Done? ==> data.Some? && r.value.recordSize <= |data.value|
  {
    if data.None? || length <= 0 || !outGiven then Fail(ErrBadParam)
    else ReadElement(data.value, 0)
  }

  /** A well-formed record, handed over with its own length, parses back to its root element. */
  lemma ParseRecordDecodesEncoding(e: Element, post: seq<Byte>)
    requires WellFormed(e)
    ensures ParseRecord(Some(Encode(e) + post), |Encode(e)|, true) == Done(e)
  {
    EncodeLength(e);
    DecodeEncode([], e, post);
    assert [] + Encode(e) + post == Encode(e) + post;
  }

  /**
   * The parser reads past `length`: two buffers that agree on their first
   * `length` bytes parse differently, because the root sequence's declared
   * size sends the decoder beyond them.
   */
  lemma ParseRecordReadsPastLength()
    ensures var a: seq<Byte> := [0x35, 0x02, 0x08, 0x01];
      var b: seq<Byte> := [0x35, 0x02, 0x48, 0x00];
      a[..2] == b[..2] &&
      ParseRecord(Some(a), 2, true).Done? && ParseRecord(Some(a), 2, true).value.recordSize == 4 &&
      ParseRecord(Some(b), 2, true) == Fail(ErrSdpBadRecord)
  {
    var a: seq<Byte> := [0x35, 0x02, 0x08, 0x01];
    var b: seq<Byte> := [0x35, 0x02, 0x48, 0x00];
    var child := Element(UINT, 0, 1, 2, Number([0x01]));
    assert ReadHeader(a, 2) == Some(Header(UINT, 0, 1, 1));
    assert a[3..4] == [0x01];
    assert ReadNumber(a, 3, Header(UINT, 0, 1, 1)) == Done(Number([0x01]));
    assert ReadElement(a, 2) == Done(child);
    RunStop(a, 2, 2, 0, child);
    LengthByte(a, 0);
    assert ReadHeader(a, 0) == Some(Header(SEQ, 5, 2, 2));
    assert ReadElement(a, 0) == Done(Element(SEQ, 5, 2, 4, Sequence([child])));
    assert ReadHeader(b, 2) == Some(Header(9, 0, 1, 1));
    assert ReadElement(b, 2) == Fail(ErrSdpBadRecord);
    LengthByte(b, 0);
    assert ReadHeader(b, 0) == Some(Header(SEQ, 5, 2, 2));
  }

  /** A 16-bit unsigned integer 0x1234 arrives as 12 34 and is held in host order as 34 12. */
  lemma Uint16Example()
    ensures ReadElement([0x09, 0x12, 0x34], 0) == Done(Element(UINT, 1, 2, 3, Number([0x34, 0x12])))
    ensures LittleEndian([0x34, 0x12]) == 0x1234
  {
    var d: seq<Byte> := [0x09, 0x12, 0x34];
    var h := Header(UINT, 1, 2, 1);
    assert ReadHeader(d, 0) == Some(h);
    assert d[1..3] == [0x12, 0x34];
    SwapPair(0x12, 0x34);
    assert ReadNumber(d, 1, h) == Done(Number([0x34, 0x12]));
    assert ReadValue(d, 0, h) == Done(Number([0x34, 0x12]));
    HostValue(0x34, 0x12);
  }

  lemma HostValue(lo: Byte, hi: Byte)
    ensures LittleEndian([lo, hi]) == lo + 256 * hi
  {
    var w := [lo, hi];
    assert w[1..] == [hi];
    assert [hi][1..] == [];
    assert LittleEndian([hi]) == hi + 256 * LittleEndian([]);
    assert LittleEndian(w) == lo + 256 * LittleEndian([hi]);
  }

  /**
   * A sequence whose last child runs past the declared size is accepted:
   * here a one-byte sequence holds a three-byte integer, and the sequence's
   * record size counts only the declared byte.
   */
  lemma SequenceOvershootAccepted()
    ensures var r := ReadElement([0x35, 0x01, 0x09, 0x12, 0x34], 0);
      r.Done? && r.value.recordSize == 3 && r.value.value == Sequence([Element(UINT, 1, 2, 3, Number([0x34, 0x12]))])
  {
    var d: seq<Byte> := [0x35, 0x01, 0x09, 0x12, 0x34];
    var child := Element(UINT, 1, 2, 3, Number([0x34, 0x12]));
    assert d[3..5] == [0x12, 0x34];
    SwapPair(0x12, 0x34);
    assert ReadNumber(d, 3, Header(UINT, 1, 2, 1)) == Done(Number([0x34, 0x12]));
    assert ReadElement(d, 2) == Done(child);
    RunStop(d, 2, 1, 0, child);
    LengthByte(d, 0);
  }

  lemma SwapPair(x: Byte, y: Byte)
    ensures Reverse([x, y]) == [y, x]
  {
    assert [x, y][1..] == [y];
    assert [y][1..] == [];
  }

  /** A one-byte explicit length (size descriptor 5) is that byte. */
  lemma LengthByte(data: seq<Byte>, pos: nat)
    requires pos + 1 < |data| && data[pos] / 8 != NIL && data[pos] % 8 == 5
    ensures ReadHeader(data, pos) == Some(Header(data[pos] / 8, 5, data[pos + 1], 2))
  {
    var w := data[pos + 1..pos + 2];
    assert w == [data[pos + 1]];
    assert w[..0] == [];
    assert BigEndian(w) == data[pos + 1];
    assert LengthWidth(5) == 1;
  }

  /**
   * The parser confined to the `length` bytes it was given: a record that
   * does not fit in them is `ErrSdpBadRecord`, never a read past them.
   */
  function ParseRecordBounded(data: Option<seq<Byte>>, length: int, outGiven: bool): (r: Outcome<Element>)
    ensures r == Fail(ErrBadParam) <==> data.None? || length <= 0 || !outGiven
    ensures !r.Overrun?
    ensures r.Done? ==> r.value.recordSize <= length
  {
    if data.None? || length <= 0 || !outGiven then Fail(ErrBadParam)
    else
      var n := if length < |data.value| then length else |data.value|;
      match ReadElement(data.value[..n], 0)
      case Overrun => Fail(ErrSdpBadRecord)
      case r => r
  }

  /** The bounded parser looks at nothing past the first `length` bytes. */
  lemma BoundedIgnoresTail(a: seq<Byte>, b: seq<Byte>, length: int, outGiven: bool)
    requires 0 < length <= |a| && length <= |b| && a[..length] == b[..length]
    ensures ParseRecordBounded(Some(a), length, outGiven) == ParseRecordBounded(Some(b), length, outGiven)
  {
  }

  /** Whenever the bounded parser accepts a record, the parser as written gives the same element. */
  lemma BoundedAgreesWhenDone(data: Option<seq<Byte>>, length: int, outGiven: bool)
    requires ParseRecordBounded(data, length, outGiven).Done?
    ensures ParseRecord(data, length, outGiven) == ParseRecordBounded(data, length, outGiven)
  {
    var d := data.value;
    var n := if length < |d| then length else |d|;
    assert IsPrefix(d[..n], d);
    ElementExtend(d[..n], d, 0);
  }

  /** A well-formed record handed over with its own length is accepted by the bounded parser. */
  lemma BoundedDecodesEncoding(e: Element, post: seq<Byte>)
    requires WellFormed(e)
    ensures ParseRecordBounded(Some(Encode(e) + post), |Encode(e)|, true) == Done(e)
  {
    var enc := Encode(e);
    var d := enc + post;
    assert d[..|enc|] == enc;
    assert enc[0..|enc|] == enc;
    DecodeEncodedAt(enc, 0, e);
  }

  /** On the buffers that show the over-read, the bounded parser rejects both. */
  lemma BoundedRejectsOverread()
    ensures ParseRecordBounded(Some([0x35, 0x02, 0x08, 0x01]), 2, true) == Fail(ErrSdpBadRecord)
    ensures ParseRecordBounded(Some([0x35, 0x02, 0x48, 0x00]), 2, true) == Fail(ErrSdpBadRecord)
  {
    var a: seq<Byte> := [0x35, 0x02, 0x08, 0x01];
    var b: seq<Byte> := [0x35, 0x02, 0x48, 0x00];
    assert a[..2] == [0x35, 0x02] == b[..2];
    var d: seq<Byte> := [0x35, 0x02];
    LengthByte(d, 0);
    assert ReadRun(d, 2, 2, 0) == Overrun;
  }

  // ---------------------------------------------------------------------
  // The loops of the decoder, as the C code runs them
  // ---------------------------------------------------------------------

  /**
   * The endian swap of a UINT/INT payload, in place: for payloads longer
   * than one byte, positions `k` and `n - 1 - k` trade places for every
   * `k` below `n / 2`.
   */
  method SwapBytes(b: array<Byte>)
    modifies b
    ensures b[..] == Reverse(old(b[..]))
  {
    ghost var w := b[..];
    var n := b.Length;
    ReverseAt(w);
    if n > 1 {
      var i := 0;
      while i < n / 2
        invariant 0 <= i <= n / 2
        invariant forall k :: 0 <= k < i ==> b[k] == w[n - 1 - k] && b[n - 1 - k] == w[k]
        invariant forall k :: i <= k < n - i ==> b[k] == w[k]
      {
        b[i], b[n - 1 - i] := b[n - 1 - i], b[i];
        i := i + 1;
      }
    }
    assert b[..] == Reverse(w);
  }

  /** The outcome of a run, with `acc` decoded before it. */
  function Prepend(acc: seq<Element>, r: Outcome<seq<Element>>): Outcome<seq<Element>>
  {
    match r
    case Done(cs) => Done(acc + cs)
    case Fail(e) => Fail(e)
    case Overrun => Overrun
  }

  /**
   * The do-while loop of a SEQ/ALT element, as a loop: decode a child, add
   * its record size to `i`, and stop once `i` reaches `size`, returning the
   * children decoded so far; a child that fails ends the loop with its
   * outcome.
   */
  method ReadSequence(data: seq<Byte>, start: nat, size: nat) returns (r: Outcome<seq<Element>>)
    requires start <= |data|
    ensures r == ReadRun(data, start, size, 0)
  {
    var p: nat, i: nat := start, 0;
    var acc: seq<Element> := [];
    PrependNothing(ReadRun(data, start, size, 0));
    while true
      invariant p <= |data|
      invariant ReadRun(data, start, size, 0) == Prepend(acc, ReadRun(data, p, size, i))
      decreases |data| - p
    {
      var child := ReadElement(data, p);
      if !child.Done? {
        assert ReadRun(data, p, size, i) == (if child.Overrun? then Overrun else Fail(child.err));
        return if child.Overrun? then Overrun else Fail(child.err);
      }
      var c := child.value;
      var q, j := p + c.recordSize, i + c.recordSize;
      if j >= size {
        RunStop(data, p, size, i, c);
        return Done(acc + [c]);
      }
      PrependStep(data, p, q, size, i, j, c, acc);
      p, i, acc := q, j, acc + [c];
    }
  }

  lemma PrependNothing(r: Outcome<seq<Element>>)
    ensures Prepend([], r) == r
  {
    if r.Done? {
      assert [] + r.value == r.value;
    }
  }

  /** One turn of the loop moves a decoded child from the run to the accumulated children. */
  lemma PrependStep(data: seq<Byte>, p: nat, q: nat, size: nat, i: nat, j: nat, c: Element, acc: seq<Element>)
    requires p <= |data| && ReadElement(data, p) == Done(c)
    requires q == p + c.recordSize && j == i + c.recordSize && j < size
    ensures Prepend(acc, ReadRun(data, p, size, i)) == Prepend(acc + [c], ReadRun(data, q, size, j))
  {
    var rest := ReadRun(data, q, size, j);
    if rest.Done? {
      RunStep(data, p, q, size, i, j, c, rest.value);
      assert acc + ([c] + rest.value) == acc + [c] + rest.value;
    }
  }

  // ---------------------------------------------------------------------
  // Releasing a decoded element
  // ---------------------------------------------------------------------

  /**
   * The heap blocks the decoder allocates for an element: a TEXT/URL
   * buffer when the string is not empty, and for a SEQ/ALT one sequence
   * cell per child together with everything its children hold.
   */
  function Allocations(e: Element): nat
    decreases e, 1
  {
    match e.value
    case Text(t) => if t.Some? then 1 else 0
    case Sequence(cs) => |cs| + AllocationsAll(cs)
    case _ => 0
  }

  function AllocationsAll(cs: seq<Element>): nat
    decreases cs, 0
  {
    if cs == [] then 0 else Allocations(cs[0]) + AllocationsAll(cs[1..])
  }

  /**
   * `bt_sdp_free_element` as written: frees the text buffer of a TEXT/URL
   * element, or walks a SEQ/ALT element's chain freeing each cell. The
   * result is the number of blocks freed. The children themselves are not
   * released.
   */
  method FreeElementShallow(e: Element) returns (freed: nat)
    ensures !e.value.Sequence? ==> freed == Allocations(e)
    ensures e.value.Sequence? ==> freed == |e.value.children|
    ensures e.value.Sequence? ==> freed + AllocationsAll(e.value.children) == Allocations(e)
  {
    freed := 0;
    match e.value {
      case Text(t) =>
        if t.Some? {
          freed := 1;
        }
      case Sequence(cs) =>
        var k := 0;
        while k < |cs|
          invariant 0 <= k <= |cs| && freed == k
        {
          freed := freed + 1;
          k := k + 1;
        }
      case _ =>
    }
  }

  /** An element whose children hold blocks of their own leaks them when released as written. */
  lemma FreeElementLeaks()
    ensures var child := Element(TEXT, 5, 1, 3, Text(Some([0x41])));
      var e := Element(SEQ, 5, 3, 5, Sequence([child]));
      Allocations(e) == 2 && (e.value.Sequence? && |e.value.children| == 1)
  {
    var child := Element(TEXT, 5, 1, 3, Text(Some([0x41])));
    var e := Element(SEQ, 5, 3, 5, Sequence([child]));
    assert AllocationsAll([child]) == Allocations(child) + AllocationsAll([]);
  }

  /**
   * Releasing an element and, first, each of its children: every block
   * the decoder allocated is freed exactly once.
   */
  method FreeElement(e: Element) returns (freed: nat)
    ensures freed == Allocations(e)
    decreases e
  {
    freed := 0;
    match e.value {
      case Text(t) =>
        if t.Some? {
          freed := 1;
        }
      case Sequence(cs) =>
        var k := 0;
        while k < |cs|
          invariant 0 <= k <= |cs|
          invariant freed == k + AllocationsAll(cs[..k])
        {
          var inner := FreeElement(cs[k]);
          AllocationsAllSnoc(cs[..k], cs[k]);
          assert cs[..k + 1] == cs[..k] + [cs[k]];
          freed := freed + 1 + inner;
          k := k + 1;
        }
        assert cs[..k] == cs;
      case _ =>
    }
  }

  lemma {:induction false} AllocationsAllSnoc(cs: seq<Element>, c: Element)
    ensures AllocationsAll(cs + [c]) == AllocationsAll(cs) + Allocations(c)
  {
    if cs != [] {
      assert (cs + [c])[1..] == cs[1..] + [c];
      AllocationsAllSnoc(cs[1..], c);
    } else {
      assert [c][1..] == [];
    }
  }
}
