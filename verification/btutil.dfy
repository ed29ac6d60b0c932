/**
 * The conversions of btutil.c: address comparison, the text forms of
 * addresses and UUIDs, and (on Linux) the conversions to and from the
 * BlueZ `uuid_t` and `bdaddr_t` types.
 *
 * Every text form is given by a format of `%02x` fields and literal
 * characters. `Render` is what `sprintf` produces for a format and `Parse`
 * is what `sscanf` accepts for it on canonical input: exactly two hex
 * digits per field (either case, as `%x` reads both), each literal
 * character as itself, and anything after the last field ignored.
 */
module BtUtil {
  import opened BtTypes
  import BtDefs

  // ---------------------------------------------------------------------
  // Hex digits
  // ---------------------------------------------------------------------

  /** The digit printed for `d` by `%x` (lower case) or `%X` (upper case). */
  function HexDigit(d: int, upper: bool): (c: char)
    requires 0 <= d < 16
    ensures IsDigitOfCase(c, upper)
  {
    if d < 10 then ('0' as int + d) as char
    else if upper then ('A' as int + d - 10) as char
    else ('a' as int + d - 10) as char
  }

  /** The value `%x` gives to one digit, in either case. */
  function HexValue(c: char): (r: Option<int>)
    ensures r.Some? ==> 0 <= r.value < 16
    ensures r.Some? <==> IsDigitOfCase(c, false) || IsDigitOfCase(c, true)
  {
    if '0' <= c <= '9' then Some(c as int - '0' as int)
    else if 'a' <= c <= 'f' then Some(c as int - 'a' as int + 10)
    else if 'A' <= c <= 'F' then Some(c as int - 'A' as int + 10)
    else None
  }

  /** `c` is a digit the printer of the given case can produce. */
  predicate IsDigitOfCase(c: char, upper: bool)
  {
    '0' <= c <= '9' || (if upper then 'A' <= c <= 'F' else 'a' <= c <= 'f')
  }

  /** Reading back a printed digit gives the digit's value. */
  lemma HexValueOfDigit(d: int, upper: bool)
    requires 0 <= d < 16
    ensures HexValue(HexDigit(d, upper)) == Some(d)
  {
  }

  /** A digit of the printer's case is the one printed for its value. */
  lemma HexDigitOfValue(c: char, upper: bool)
    requires IsDigitOfCase(c, upper)
    ensures HexValue(c).Some? && HexDigit(HexValue(c).value, upper) == c
  {
  }

  /** Every hex digit of `s` is of the printer's case. */
  predicate InCase(s: string, upper: bool)
  {
    forall i :: 0 <= i < |s| && HexValue(s[i]).Some? ==> IsDigitOfCase(s[i], upper)
  }

  // ---------------------------------------------------------------------
  // Formats
  // ---------------------------------------------------------------------

  /** One directive of a format string: a `%02x` field or a literal character. */
  datatype Token = Field | Lit(c: char)

  type Format = seq<Token>

  /** Number of `%02x` fields in a format. */
  function FieldCount(fmt: Format): nat
  {
    if fmt == [] then 0 else (if fmt[0].Field? then 1 else 0) + FieldCount(fmt[1..])
  }

  /** Number of characters `Render` prints for a format. */
  function TextLength(fmt: Format): nat
  {
    if fmt == [] then 0 else (if fmt[0].Field? then 2 else 1) + TextLength(fmt[1..])
  }

  /** No literal of the format could be read as a hex digit. */
  predicate LiteralsNotHex(fmt: Format)
  {
    forall i :: 0 <= i < |fmt| && fmt[i].Lit? ==> HexValue(fmt[i].c).None?
  }

  /** `%02x` (or `%02X`) applied to one byte. */
  function Hex2(b: Byte, upper: bool): (s: string)
    ensures |s| == 2 && IsDigitOfCase(s[0], upper) && IsDigitOfCase(s[1], upper)
    ensures HexValue(s[0]) == Some(b / 16) && HexValue(s[1]) == Some(b % 16)
  {
    HexValueOfDigit(b / 16, upper);
    HexValueOfDigit(b % 16, upper);
    [HexDigit(b / 16, upper), HexDigit(b % 16, upper)]
  }

  /** `sprintf` of a format whose fields take the bytes `bs` in order. */
  function Render(bs: seq<Byte>, fmt: Format, upper: bool): (s: string)
    requires |bs| == FieldCount(fmt)
    ensures |s| == TextLength(fmt)
  {
    if fmt == [] then ""
    else if fmt[0].Field? then Hex2(bs[0], upper) + Render(bs[1..], fmt[1..], upper)
    else [fmt[0].c] + Render(bs, fmt[1..], upper)
  }

  /**
   * `sscanf` of a format on canonical input: each field is two hex digits
   * of either case, each literal must match. `None` is a conversion count
   * short of the number of fields; text after the format is ignored.
   */
  function Parse(s: string, fmt: Format): (r: Option<seq<Byte>>)
    ensures r.Some? ==> |r.value| == FieldCount(fmt) && |s| >= TextLength(fmt)
  {
    if fmt == [] then Some([])
    else if fmt[0].Field? then
      if |s| < 2 || HexValue(s[0]).None? || HexValue(s[1]).None? then None
      else
        match Parse(s[2..], fmt[1..])
        case None => None
        case Some(rest) => Some([HexValue(s[0]).value * 16 + HexValue(s[1]).value] + rest)
    else if |s| < 1 || s[0] != fmt[0].c then None
    else Parse(s[1..], fmt[1..])
  }

  /** `Parse` reading one field off the front of `h + r`. */
  lemma ParseFieldStep(h: string, r: string, fmt: Format)
    requires fmt != [] && fmt[0].Field?
    requires |h| == 2 && HexValue(h[0]).Some? && HexValue(h[1]).Some?
    ensures Parse(h + r, fmt)
         == match Parse(r, fmt[1..])
            case None => None
            case Some(rest) => Some([HexValue(h[0]).value * 16 + HexValue(h[1]).value] + rest)
  {
    var s := h + r;
    assert s[0] == h[0] && s[1] == h[1] && s[2..] == r;
  }

  /** Whatever follows the printed text, parsing it gives the bytes back. */
  lemma {:induction false} ParseRender(bs: seq<Byte>, fmt: Format, upper: bool, tail: string)
    requires |bs| == FieldCount(fmt)
    ensures Parse(Render(bs, fmt, upper) + tail, fmt) == Some(bs)
  {
    if fmt != [] {
      if fmt[0].Field? {
        var h := Hex2(bs[0], upper);
        var r := Render(bs[1..], fmt[1..], upper) + tail;
        JoinAssoc(h, Render(bs[1..], fmt[1..], upper), tail);
        ParseFieldStep(h, r, fmt);
        ParseRender(bs[1..], fmt[1..], upper, tail);
        assert [bs[0]] + bs[1..] == bs;
      } else {
        var r := Render(bs, fmt[1..], upper) + tail;
        JoinAssoc([fmt[0].c], Render(bs, fmt[1..], upper), tail);
        assert ([fmt[0].c] + r)[1..] == r;
        ParseRender(bs, fmt[1..], upper, tail);
      }
    }
  }

  /**
   * Text that parses and whose hex digits are of the printer's case is, up
   * to the end of the format, exactly what the printer produces.
   */
  lemma {:induction false} RenderParse(s: string, fmt: Format, upper: bool)
    requires Parse(s, fmt).Some?
    requires InCase(s, upper)
    ensures Render(Parse(s, fmt).value, fmt, upper) == s[..TextLength(fmt)]
  {
    if fmt != [] {
      var n := TextLength(fmt);
      if fmt[0].Field? {
        var bs := Parse(s, fmt).value;
        var hi := HexValue(s[0]).value;
        var lo := HexValue(s[1]).value;
        HexDigitOfValue(s[0], upper);
        HexDigitOfValue(s[1], upper);
        assert bs[0] / 16 == hi && bs[0] % 16 == lo;
        assert Hex2(bs[0], upper) == s[..2];
        InCaseSuffix(s, 2, upper);
        RenderParse(s[2..], fmt[1..], upper);
        PrefixSplit(s, 2, n);
      } else {
        InCaseSuffix(s, 1, upper);
        RenderParse(s[1..], fmt[1..], upper);
        PrefixSplit(s, 1, n);
        assert s[..1] == [s[0]];
      }
    }
  }

  lemma PrefixSplit(s: string, k: nat, n: nat)
    requires k <= n <= |s|
    ensures s[..n] == s[..k] + s[k..][..n - k]
  {
  }

  lemma InCaseSuffix(s: string, k: nat, upper: bool)
    requires k <= |s| && InCase(s, upper)
    ensures InCase(s[k..], upper)
  {
    forall i | 0 <= i < |s[k..]| && HexValue(s[k..][i]).Some?
      ensures IsDigitOfCase(s[k..][i], upper)
    {
      assert s[k..][i] == s[i + k];
    }
  }

  /** With no literal that looks like a digit, the printed text is in the printer's case. */
  lemma {:induction false} RenderInCase(bs: seq<Byte>, fmt: Format, upper: bool)
    requires |bs| == FieldCount(fmt)
    requires LiteralsNotHex(fmt)
    ensures InCase(Render(bs, fmt, upper), upper)
  {
    if fmt != [] {
      assert LiteralsNotHex(fmt[1..]) by {
        forall i | 0 <= i < |fmt[1..]| && fmt[1..][i].Lit?
          ensures HexValue(fmt[1..][i].c).None?
        {
          assert fmt[1..][i] == fmt[i + 1];
        }
      }
      var h := if fmt[0].Field? then Hex2(bs[0], upper) else [fmt[0].c];
      var rest := if fmt[0].Field? then bs[1..] else bs;
      RenderInCase(rest, fmt[1..], upper);
      var t := Render(rest, fmt[1..], upper);
      var s := h + t;
      assert s == Render(bs, fmt, upper);
      forall i | 0 <= i < |s| && HexValue(s[i]).Some?
        ensures IsDigitOfCase(s[i], upper)
      {
        if i < |h| {
          assert s[i] == h[i];
        } else {
          assert s[i] == t[i - |h|];
        }
      }
    }
  }

  /** A format of `n` fields and no literals. */
  function Fields(n: nat): (fmt: Format)
    ensures |fmt| == n && FieldCount(fmt) == n && TextLength(fmt) == 2 * n
    ensures LiteralsNotHex(fmt)
    ensures forall i :: 0 <= i < n ==> fmt[i] == Field
  {
    if n == 0 then [] else [Field] + Fields(n - 1)
  }

  /** A literal-free format parses exactly when its span is all hex digits. */
  lemma {:induction false} ParseFieldsIff(s: string, n: nat)
    ensures Parse(s, Fields(n)).Some?
        <==> |s| >= 2 * n && forall i :: 0 <= i < 2 * n ==> HexValue(s[i]).Some?
  {
    if n > 0 {
      var fmt := Fields(n);
      assert fmt[0] == Field && fmt[1..] == Fields(n - 1);
      if |s| >= 2 {
        ParseFieldsIff(s[2..], n - 1);
        assert forall i :: 2 <= i < |s| ==> s[i] == s[2..][i - 2];
      }
    }
  }

  // ---------------------------------------------------------------------
  // Address comparison
  // ---------------------------------------------------------------------

  /** The comparison loop of `bt_addr_equals` from byte `i` on. */
  function AddrEqualsFrom(a1: Addr, a2: Addr, i: nat): (r: bool)
    requires i <= 6
    ensures r <==> a1[i..] == a2[i..]
    decreases 6 - i
  {
    if i == 6 then true
    else if a1[i] != a2[i] then false
    else
      assert a1[i..] == [a1[i]] + a1[i + 1..] && a2[i..] == [a2[i]] + a2[i + 1..];
      AddrEqualsFrom(a1, a2, i + 1)
  }

  /** `bt_addr_equals`: true exactly when all six bytes agree. */
  function AddrEquals(a1: Addr, a2: Addr): (r: bool)
    ensures r <==> a1 == a2
    ensures r <==> forall i :: 0 <= i < 6 ==> a1[i] == a2[i]
  {
    AddrEqualsFrom(a1, a2, 0)
  }

  // ---------------------------------------------------------------------
  // Address and UUID text forms
  // ---------------------------------------------------------------------

  lemma {:induction false} FormatConcat(a: Format, b: Format)
    ensures FieldCount(a + b) == FieldCount(a) + FieldCount(b)
    ensures TextLength(a + b) == TextLength(a) + TextLength(b)
    ensures LiteralsNotHex(a) && LiteralsNotHex(b) ==> LiteralsNotHex(a + b)
  {
    if a == [] {
      assert a + b == b;
    } else {
      assert (a + b)[0] == a[0] && (a + b)[1..] == a[1..] + b;
      FormatConcat(a[1..], b);
    }
    if LiteralsNotHex(a) && LiteralsNotHex(b) {
      forall i | 0 <= i < |a + b| && (a + b)[i].Lit?
        ensures HexValue((a + b)[i].c).None?
      {
        if i < |a| {
          assert (a + b)[i] == a[i];
        } else {
          assert (a + b)[i] == b[i - |a|];
        }
      }
    }
  }

  /** A literal `-` or `:` followed by `n` fields. */
  function SepFields(c: char, n: nat): (fmt: Format)
    requires c == ':' || c == '-'
    ensures FieldCount(fmt) == n && TextLength(fmt) == 2 * n + 1 && LiteralsNotHex(fmt)
    ensures |fmt| == n + 1 && fmt[0] == Lit(c)
  {
    FormatConcat([Lit(c)], Fields(n));
    [Lit(c)] + Fields(n)
  }

  /** `k` times a literal `:` followed by one field. */
  function ColonFields(k: nat): (fmt: Format)
    ensures FieldCount(fmt) == k && TextLength(fmt) == 3 * k && LiteralsNotHex(fmt)
    ensures |fmt| == 2 * k && (k > 0 ==> fmt[0] == Lit(':'))
  {
    if k == 0 then []
    else
      FormatConcat(SepFields(':', 1), ColonFields(k - 1));
      SepFields(':', 1) + ColonFields(k - 1)
  }

  /** `BT_ADDRESS_FORMAT`: `%02x:%02x:%02x:%02x:%02x:%02x`. */
  function AddrFormat(): (fmt: Format)
    ensures FieldCount(fmt) == 6 && TextLength(fmt) == 17 && LiteralsNotHex(fmt)
    ensures |fmt| == 11 && fmt[0] == Field && fmt[1] == Lit(':')
  {
    FormatConcat(Fields(1), ColonFields(5));
    Fields(1) + ColonFields(5)
  }

  /** `BT_ADDRESS_FORMAT_COMPACT`: `%02X` six times. */
  function CompactFormat(): (fmt: Format)
    ensures FieldCount(fmt) == 6 && TextLength(fmt) == 12 && LiteralsNotHex(fmt)
  {
    Fields(6)
  }

  /** `BT_UUID_FORMAT`: `%02x` 4, 2, 2, 2 and 6 times, the groups joined by `-`. */
  function UuidFormat(): (fmt: Format)
    ensures FieldCount(fmt) == 16 && TextLength(fmt) == 36 && LiteralsNotHex(fmt)
  {
    FormatConcat(Fields(4), SepFields('-', 2));
    FormatConcat(Fields(4) + SepFields('-', 2), SepFields('-', 2));
    FormatConcat(Fields(4) + SepFields('-', 2) + SepFields('-', 2), SepFields('-', 2));
    FormatConcat(Fields(4) + SepFields('-', 2) + SepFields('-', 2) + SepFields('-', 2), SepFields('-', 6));
    Fields(4) + SepFields('-', 2) + SepFields('-', 2) + SepFields('-', 2) + SepFields('-', 6)
  }

  /** The address bytes in printed order: `b[5]` first, `b[0]` last. */
  function MsbFirst(bs: Addr): (r: Addr)
    ensures forall i :: 0 <= i < 6 ==> r[i] == bs[5 - i]
  {
    [bs[5], bs[4], bs[3], bs[2], bs[1], bs[0]]
  }

  /**
   * `bt_addr_to_str`: the address as `xx:xx:xx:xx:xx:xx`, most significant
   * byte first, lower-case digits.
   */
  function AddrToStr(a: Addr): (s: string)
    ensures |s| + 1 == BtDefs.ADDRESS_LENGTH
    ensures InCase(s, false)
    ensures HexValue(s[0]) == Some(a[5] / 16) && HexValue(s[1]) == Some(a[5] % 16) && s[2] == ':'
  {
    var x := MsbFirst(a);
    var fmt := AddrFormat();
    RenderInCase(x, fmt, false);
    assert Render(x, fmt, false) == Hex2(x[0], false) + ([':'] + Render(x[1..], fmt[2..], false)) by {
      assert fmt[1..][0] == Lit(':') && fmt[1..][1..] == fmt[2..];
    }
    Render(x, fmt, false)
  }

  /**
   * `bt_str_to_addr`: reads the colon form (either case); `ErrBadParam`
   * when fewer than six fields convert.
   */
  function StrToAddr(s: string): (r: Result<Addr>)
    ensures r.Err? ==> r.err == ErrBadParam
    ensures r.Ok? <==> Parse(s, AddrFormat()).Some?
  {
    match Parse(s, AddrFormat())
    case None => Err(ErrBadParam)
    case Some(x) => Ok(MsbFirst(x))
  }

  /** `bt_addr_to_str_compact`: the address as twelve upper-case digits. */
  function AddrToStrCompact(a: Addr): (s: string)
    ensures |s| == 12
    ensures InCase(s, true)
    ensures forall i :: 0 <= i < 12 ==> HexValue(s[i]).Some?
  {
    var x := MsbFirst(a);
    RenderInCase(x, CompactFormat(), true);
    ParseRender(x, CompactFormat(), true, "");
    ParseFieldsIff(Render(x, CompactFormat(), true) + "", 6);
    assert Render(x, CompactFormat(), true) + "" == Render(x, CompactFormat(), true);
    Render(x, CompactFormat(), true)
  }

  /**
   * `bt_str_compact_to_addr`: reads twelve digits (either case);
   * `ErrBadParam` when fewer than six fields convert.
   */
  function StrCompactToAddr(s: string): (r: Result<Addr>)
    ensures r.Err? ==> r.err == ErrBadParam
    ensures r.Ok? <==> |s| >= 12 && forall i :: 0 <= i < 12 ==> HexValue(s[i]).Some?
  {
    ParseFieldsIff(s, 6);
    match Parse(s, CompactFormat())
    case None => Err(ErrBadParam)
    case Some(x) => Ok(MsbFirst(x))
  }

  /** Printing then reading the colon form gives the address back. */
  lemma AddrStrRoundTrip(a: Addr, tail: string)
    ensures StrToAddr(AddrToStr(a) + tail) == Ok(a)
  {
    assert MsbFirst(MsbFirst(a)) == a;
    ParseRender(MsbFirst(a), AddrFormat(), false, tail);
  }

  /** A lower-case colon form that reads as an address is what it prints as. */
  lemma StrAddrRoundTrip(s: string)
    requires StrToAddr(s).Ok?
    requires InCase(s, false)
    ensures AddrToStr(StrToAddr(s).value) == s[..17]
  {
    var x := Parse(s, AddrFormat()).value;
    RenderParse(s, AddrFormat(), false);
    assert MsbFirst(MsbFirst(x)) == x;
  }

  /** Printing then reading the compact form gives the address back. */
  lemma AddrStrCompactRoundTrip(a: Addr, tail: string)
    ensures StrCompactToAddr(AddrToStrCompact(a) + tail) == Ok(a)
  {
    assert MsbFirst(MsbFirst(a)) == a;
    ParseRender(MsbFirst(a), CompactFormat(), true, tail);
  }

  /** An upper-case compact form that reads as an address is what it prints as. */
  lemma StrCompactAddrRoundTrip(s: string)
    requires StrCompactToAddr(s).Ok?
    requires InCase(s, true)
    ensures AddrToStrCompact(StrCompactToAddr(s).value) == s[..12]
  {
    var x := Parse(s, CompactFormat()).value;
    RenderParse(s, CompactFormat(), true);
    assert MsbFirst(MsbFirst(x)) == x;
  }

  /** The compact reader refuses the colon form: its third character is ':'. */
  lemma CompactRejectsColonForm(a: Addr)
    ensures StrCompactToAddr(AddrToStr(a)).Err?
  {
    assert HexValue(AddrToStr(a)[2]).None?;
  }

  /** The colon reader refuses the compact form: a digit stands where ':' must. */
  lemma ColonRejectsCompactForm(a: Addr)
    ensures StrToAddr(AddrToStrCompact(a)).Err?
  {
    var s := AddrToStrCompact(a);
    var fmt := AddrFormat();
    assert HexValue(s[2]).Some?;
    assert fmt[1..][0] == Lit(':');
    assert s[2..][0] == s[2];
    assert Parse(s[2..], fmt[1..]).None?;
  }

  /** `bt_uuid_to_str`: `xxxxxxxx-xxxx-xxxx-xxxx-xxxxxxxxxxxx`, bytes in order. */
  function UuidToStr(u: Uuid): (s: string)
    ensures |s| + 1 == BtDefs.UUID_LENGTH
    ensures InCase(s, false)
  {
    RenderInCase(u, UuidFormat(), false);
    Render(u, UuidFormat(), false)
  }

  /** `bt_str_to_uuid`: `ErrBadParam` when fewer than sixteen fields convert. */
  function StrToUuid(s: string): (r: Result<Uuid>)
    ensures r.Err? ==> r.err == ErrBadParam
    ensures r.Ok? <==> Parse(s, UuidFormat()).Some?
  {
    match Parse(s, UuidFormat())
    case None => Err(ErrBadParam)
    case Some(x) => Ok(x)
  }

  /** Printing then reading a UUID gives it back. */
  lemma UuidStrRoundTrip(u: Uuid, tail: string)
    ensures StrToUuid(UuidToStr(u) + tail) == Ok(u)
  {
    ParseRender(u, UuidFormat(), false, tail);
  }

  /** A lower-case UUID text that reads as a UUID is what it prints as. */
  lemma StrUuidRoundTrip(s: string)
    requires StrToUuid(s).Ok?
    requires InCase(s, false)
    ensures UuidToStr(StrToUuid(s).value) == s[..36]
  {
    RenderParse(s, UuidFormat(), false);
  }

  // ---------------------------------------------------------------------
  // BlueZ conversions (Linux)
  // ---------------------------------------------------------------------

  /** BlueZ `uuid_t`: a type tag and a 16-, 32- or 128-bit value. */
  datatype UuidT =
    | Uuid16(v16: int)
    | Uuid32(v32: int)
    | Uuid128(v128: Uuid)
    | OtherType(tag: int)

  predicate ValidUuidT(t: UuidT)
  {
    match t
    case Uuid16(v) => 0 <= v < 0x1_0000
    case Uuid32(v) => 0 <= v < 0x1_0000_0000
    case _ => true
  }

  /** Bytes 4-15 of the Bluetooth base UUID `00000000-0000-1000-8000-00805f9b34fb`. */
  const BaseUuidTail: seq<Byte> := [0x00, 0x00, 0x10, 0x00, 0x80, 0x00, 0x00, 0x80, 0x5f, 0x9b, 0x34, 0xfb]

  /** The 32-bit value a short UUID stands for; 0 for an unknown type tag. */
  function ShortValue(t: UuidT): int
  {
    match t
    case Uuid16(v) => v
    case Uuid32(v) => v
    case _ => 0
  }

  /** The four bytes of a 32-bit value, most significant first. */
  function BigEndian32(v: int): (r: seq<Byte>)
    requires 0 <= v < 0x1_0000_0000
    ensures |r| == 4 && BigEndian(r) == v
  {
    var r := [(v / 0x100_0000) % 256, (v / 0x1_0000) % 256, (v / 0x100) % 256, v % 256];
    var q1, q2, q3 := v / 0x100, v / 0x1_0000, v / 0x100_0000;
    assert q2 == q1 / 256 && q3 == q2 / 256 && q3 < 256;
    BigEndianOfFour(r);
    assert BigEndian(r) == ((q3 * 256 + q2 % 256) * 256 + q1 % 256) * 256 + v % 256;
    r
  }

  lemma BigEndianOfFour(r: seq<Byte>)
    requires |r| == 4
    ensures BigEndian(r) == ((r[0] as int * 256 + r[1]) * 256 + r[2]) * 256 + r[3]
  {
    var r3, r2, r1 := r[..3], r[..3][..2], r[..3][..2][..1];
    assert r1[..0] == [];
    assert BigEndian(r1) == r[0];
    assert BigEndian(r2) == BigEndian(r1) * 256 + r[1];
    assert BigEndian(r3) == BigEndian(r2) * 256 + r[2];
  }

  /** `bt_uuid_to_uuid`: a `uuid_t` of type 128 holding the sixteen bytes. */
  function UuidToUuidT(u: Uuid): (r: UuidT)
    ensures r.Uuid128? && r.v128 == u
  {
    Uuid128(u)
  }

  /**
   * `bt_uuidt_to_uuid`: a 128-bit value is copied; a 16- or 32-bit value is
   * placed big-endian in the first four bytes of the base UUID.
   */
  function UuidTToUuid(t: UuidT): (r: Uuid)
    requires ValidUuidT(t)
    ensures t.Uuid128? ==> r == t.v128
    ensures !t.Uuid128? ==> BigEndian(r[..4]) == ShortValue(t) && r[4..] == BaseUuidTail
  {
    if t.Uuid128? then t.v128
    else
      var r := BigEndian32(ShortValue(t)) + BaseUuidTail;
      assert r[..4] == BigEndian32(ShortValue(t));
      r
  }

  /** Converting to a `uuid_t` and back is the identity. */
  lemma UuidTRoundTrip(u: Uuid)
    ensures UuidTToUuid(UuidToUuidT(u)) == u
  {
  }

  /** A 16-bit UUID and its 32-bit widening name the same full UUID. */
  lemma ShortUuidsWiden(v: int)
    requires 0 <= v < 0x1_0000
    ensures UuidTToUuid(Uuid16(v)) == UuidTToUuid(Uuid32(v))
  {
  }

  /** BlueZ `bdaddr_t`: the same six bytes in the same order. */
  datatype BdAddr = BdAddr(b: Addr)

  /** `bt_addr_to_bdaddr`: a byte-for-byte copy. */
  function AddrToBdaddr(a: Addr): (r: BdAddr)
    ensures forall i :: 0 <= i < 6 ==> r.b[i] == a[i]
  {
    BdAddr(a)
  }

  /** `bt_bdaddr_to_addr`: a byte-for-byte copy. */
  function BdaddrToAddr(d: BdAddr): (r: Addr)
    ensures forall i :: 0 <= i < 6 ==> r[i] == d.b[i]
  {
    d.b
  }

  /** The two copies are inverse to each other. */
  lemma BdaddrRoundTrip(a: Addr, d: BdAddr)
    ensures BdaddrToAddr(AddrToBdaddr(a)) == a
    ensures AddrToBdaddr(BdaddrToAddr(d)) == d
  {
  }

  // ---------------------------------------------------------------------
  // Layouts, byte by byte
  // ---------------------------------------------------------------------

  /** The bytes printed back to back as `%02x` fields. */
  function HexString(bs: seq<Byte>, upper: bool): (s: string)
    ensures |s| == 2 * |bs|
  {
    if bs == [] then "" else Hex2(bs[0], upper) + HexString(bs[1..], upper)
  }

  /** Each byte printed after a `:`. */
  function ColonHex(bs: seq<Byte>): (s: string)
    ensures |s| == 3 * |bs|
  {
    if bs == [] then "" else ":" + Hex2(bs[0], false) + ColonHex(bs[1..])
  }

  /** Printing a concatenation prints its parts back to back. */
  lemma {:induction false} HexStringPairs(bs: seq<Byte>, x: seq<Byte>, y: seq<Byte>)
    requires bs == x + y
    ensures HexString(bs, false) == HexString(x, false) + HexString(y, false)
  {
    if x == [] {
      assert bs == y;
    } else {
      assert bs[0] == x[0] && bs[1..] == x[1..] + y;
      HexStringPairs(bs[1..], x[1..], y);
    }
  }

  lemma {:induction false} RenderConcat(b1: seq<Byte>, f1: Format, b2: seq<Byte>, f2: Format, upper: bool)
    requires |b1| == FieldCount(f1) && |b2| == FieldCount(f2)
    ensures FieldCount(f1 + f2) == |b1 + b2|
    ensures Render(b1 + b2, f1 + f2, upper) == Render(b1, f1, upper) + Render(b2, f2, upper)
  {
    FormatConcat(f1, f2);
    if f1 == [] {
      assert b1 == [] && f1 + f2 == f2 && b1 + b2 == b2;
    } else {
      var b, f := b1 + b2, f1 + f2;
      assert f[0] == f1[0] && f[1..] == f1[1..] + f2;
      if f1[0].Field? {
        assert b[0] == b1[0] && b[1..] == b1[1..] + b2;
        RenderConcat(b1[1..], f1[1..], b2, f2, upper);
        JoinAssoc(Hex2(b1[0], upper), Render(b1[1..], f1[1..], upper), Render(b2, f2, upper));
      } else {
        RenderConcat(b1, f1[1..], b2, f2, upper);
        JoinAssoc([f1[0].c], Render(b1, f1[1..], upper), Render(b2, f2, upper));
      }
    }
  }

  lemma JoinAssoc(x: string, y: string, z: string)
    ensures x + (y + z) == (x + y) + z
  {
  }

  lemma {:induction false} RenderFields(bs: seq<Byte>, upper: bool)
    ensures Render(bs, Fields(|bs|), upper) == HexString(bs, upper)
  {
    if bs != [] {
      assert Fields(|bs|)[1..] == Fields(|bs| - 1);
      RenderFields(bs[1..], upper);
    }
  }

  lemma {:induction false} RenderColonFields(bs: seq<Byte>)
    ensures Render(bs, ColonFields(|bs|), false) == ColonHex(bs)
  {
    if bs != [] {
      var k := |bs|;
      var sep := SepFields(':', 1);
      RenderConcat(bs[..1], sep, bs[1..], ColonFields(k - 1), false);
      assert bs[..1] + bs[1..] == bs;
      assert sep[1..] == Fields(1);
      RenderFields(bs[..1], false);
      assert Render(bs[..1], sep, false) == ":" + Hex2(bs[0], false);
      RenderColonFields(bs[1..]);
    }
  }

  /** `bt_addr_to_str` prints `b[5]` first and `b[0]` last, joined by `:`. */
  lemma AddrTextLayout(a: Addr)
    ensures AddrToStr(a) == Hex2(a[5], false) + ColonHex([a[4], a[3], a[2], a[1], a[0]])
  {
    var x := MsbFirst(a);
    var head, t := x[..1], x[1..];
    RenderConcat(head, Fields(1), t, ColonFields(5), false);
    assert head + t == x;
    RenderFields(head, false);
    assert HexString(head, false) == Hex2(a[5], false);
    RenderColonFields(t);
    assert t == [a[4], a[3], a[2], a[1], a[0]];
  }

  lemma RenderSepFields(bs: seq<Byte>, c: char)
    requires c == ':' || c == '-'
    ensures Render(bs, SepFields(c, |bs|), false) == [c] + HexString(bs, false)
  {
    var sep := SepFields(c, |bs|);
    assert sep[0] == Lit(c) && sep[1..] == Fields(|bs|);
    RenderFields(bs, false);
  }

  lemma {:induction false} UuidFormatLayout(u: Uuid)
    ensures Render(u, UuidFormat(), false)
         == HexString(u[..4], false) + ("-" + HexString(u[4..6], false)) + ("-" + HexString(u[6..8], false))
          + ("-" + HexString(u[8..10], false)) + ("-" + HexString(u[10..], false))
  {
    var f1, f2, f3, f4 := Fields(4), SepFields('-', 2), SepFields('-', 2), SepFields('-', 2);
    var f5 := SepFields('-', 6);
    var g2 := f1 + f2;
    var g3 := g2 + f3;
    var g4 := g3 + f4;
    assert UuidFormat() == g4 + f5;
    var p1 := u[..4];
    var p2 := u[4..6];
    var p3 := u[6..8];
    var p4 := u[8..10];
    var p5 := u[10..];
    RenderFields(p1, false);
    RenderSepFields(p2, '-');
    RenderSepFields(p3, '-');
    RenderSepFields(p4, '-');
    RenderSepFields(p5, '-');
    RenderConcat(p1, f1, p2, f2, false);
    var q2 := p1 + p2;
    RenderConcat(q2, g2, p3, f3, false);
    var q3 := q2 + p3;
    RenderConcat(q3, g3, p4, f4, false);
    var q4 := q3 + p4;
    RenderConcat(q4, g4, p5, f5, false);
    UuidGroupsJoin(u);
  }

  lemma UuidGroupsJoin(u: Uuid)
    ensures u[..4] + u[4..6] + u[6..8] + u[8..10] + u[10..] == u
  {
    assert u[..6] == u[..4] + u[4..6];
    assert u[..8] == u[..6] + u[6..8];
    assert u[..10] == u[..8] + u[8..10];
    assert u == u[..10] + u[10..];
  }

  /** `bt_uuid_to_str` prints the bytes in order in groups of 4, 2, 2, 2 and 6. */
  lemma UuidTextLayout(u: Uuid)
    ensures UuidToStr(u)
         == HexString(u[..4], false) + ("-" + HexString(u[4..6], false)) + ("-" + HexString(u[6..8], false))
          + ("-" + HexString(u[8..10], false)) + ("-" + HexString(u[10..], false))
  {
    UuidFormatLayout(u);
  }

  // ---------------------------------------------------------------------
  // Worked examples
  // ---------------------------------------------------------------------

  /** Text that is not an address is refused by the colon and UUID readers. */
  lemma MalformedAddressesRejected()
    ensures StrToAddr("gibberish").Err?
    ensures StrToAddr("0123456789ab").Err?
    ensures StrToAddr("he:ll:o :wo:rl:d!").Err?
    ensures StrToUuid("01:23:45:67:89:ab").Err?
  {
  }

  /** Text that is not a compact address is refused by the compact reader. */
  lemma MalformedCompactRejected()
    ensures StrCompactToAddr("gibberish").Err?
    ensures StrCompactToAddr("01:23:45:67:89:ab").Err?
  {
  }

  lemma ColonHexExample()
    ensures ColonHex([0x1a, 0x7d, 0xda, 0x71, 0x13]) == ":1a:7d:da:71:13"
  {
    assert Hex2(0x1a, false) == "1a" && Hex2(0x7d, false) == "7d" && Hex2(0xda, false) == "da";
    assert Hex2(0x71, false) == "71" && Hex2(0x13, false) == "13";
  }

  /** An address of the device-inquiry tests prints as they expect. */
  lemma AddressExample(a: Addr)
    requires a == [0x13, 0x71, 0xda, 0x7d, 0x1a, 0x00]
    ensures AddrToStr(a) == "00:1a:7d:da:71:13"
  {
    assert "00" + ":1a:7d:da:71:13" == "00:1a:7d:da:71:13";
    assert Hex2(0, false) == "00" by {
      assert HexDigit(0, false) == '0';
    }
    AddrTextLayout(a);
    assert [a[4], a[3], a[2], a[1], a[0]] == [0x1a, 0x7d, 0xda, 0x71, 0x13];
    ColonHexExample();
  }

  lemma HexStringOfTwo(x: Byte, y: Byte)
    ensures HexString([x, y], false) == Hex2(x, false) + Hex2(y, false)
  {
    assert [x, y][1..] == [y];
    assert [y][1..] == [];
  }

  lemma Uuid16ExampleBytes()
    ensures UuidTToUuid(Uuid16(0x1801))
         == [0x00, 0x00, 0x18, 0x01, 0x00, 0x00, 0x10, 0x00, 0x80, 0x00, 0x00, 0x80, 0x5f, 0x9b, 0x34, 0xfb]
  {
    var r := BigEndian32(0x1801);
    assert r == [0x00, 0x00, 0x18, 0x01];
  }

  /** The 16-bit UUID 0x1801 widens and prints as the service-inquiry tests expect. */
  lemma Uuid16Example()
    ensures UuidToStr(UuidTToUuid(Uuid16(0x1801))) == "00001801-0000-1000-8000-00805f9b34fb"
  {
    Uuid16ExampleBytes();
    Uuid16ExampleText([0x00, 0x00, 0x18, 0x01, 0x00, 0x00, 0x10, 0x00, 0x80, 0x00, 0x00, 0x80, 0x5f, 0x9b, 0x34, 0xfb]);
  }

  /** The last four groups of the Bluetooth base UUID print as `0000-1000-8000-00805f9b34fb`. */
  lemma BaseUuidGroups()
    ensures HexString([0x00, 0x00], false) == "0000"
    ensures HexString([0x10, 0x00], false) == "1000"
    ensures HexString([0x80, 0x00], false) == "8000"
    ensures HexString([0x00, 0x80, 0x5f, 0x9b, 0x34, 0xfb], false) == "00805f9b34fb"
  {
    HexStringOfTwo(0x00, 0x00);
    HexStringOfTwo(0x10, 0x00);
    HexStringOfTwo(0x80, 0x00);
    HexStringOfTwo(0x00, 0x80);
    HexStringOfTwo(0x5f, 0x9b);
    HexStringOfTwo(0x34, 0xfb);
    assert Hex2(0x00, false) == "00" && Hex2(0x10, false) == "10" && Hex2(0x80, false) == "80";
    assert Hex2(0x5f, false) == "5f" && Hex2(0x9b, false) == "9b";
    assert Hex2(0x34, false) == "34" && Hex2(0xfb, false) == "fb";
    HexStringPairs([0x5f, 0x9b, 0x34, 0xfb], [0x5f, 0x9b], [0x34, 0xfb]);
    assert "5f9b" + "34fb" == "5f9b34fb";
    HexStringPairs([0x00, 0x80, 0x5f, 0x9b, 0x34, 0xfb], [0x00, 0x80], [0x5f, 0x9b, 0x34, 0xfb]);
    assert "0080" + "5f9b34fb" == "00805f9b34fb";
  }

  lemma Uuid16ExampleText(u: Uuid)
    requires u[..4] == [0x00, 0x00, 0x18, 0x01] && u[4..6] == [0x00, 0x00] && u[6..8] == [0x10, 0x00]
    requires u[8..10] == [0x80, 0x00] && u[10..] == [0x00, 0x80, 0x5f, 0x9b, 0x34, 0xfb]
    ensures UuidToStr(u) == "00001801-0000-1000-8000-00805f9b34fb"
  {
    assert "00001801" + ("-" + "0000") + ("-" + "1000") + ("-" + "8000") + ("-" + "00805f9b34fb")
        == "00001801-0000-1000-8000-00805f9b34fb";
    assert HexString([0x00, 0x00, 0x18, 0x01], false) == "00001801" by {
      HexStringOfTwo(0x00, 0x00);
      HexStringOfTwo(0x18, 0x01);
      assert Hex2(0x00, false) == "00" && Hex2(0x18, false) == "18" && Hex2(0x01, false) == "01";
      HexStringPairs([0x00, 0x00, 0x18, 0x01], [0x00, 0x00], [0x18, 0x01]);
      assert "0000" + "1801" == "00001801";
    }
    BaseUuidGroups();
    UuidTextLayout(u);
  }
}
