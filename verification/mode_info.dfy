/**
 The per-mode descriptor messages a device sends during the handshake
 (padString, buildRange, buildFunctMap, buildFormat and setupMode in
 uart/rp2/LPF2.py:79-126).
 */
module ModeInfo {
  import opened Results
  import opened Bytes
  import opened Checksum
  import opened Frames
  import opened Numeric

  /** A value range: minimum and maximum as floats. */
  datatype Range = Range(min: Single, max: Single)

  /** The function map: input-side and output-side type tags. */
  datatype Mapping = Mapping(input: byte, output: byte)

  /** The numeric format: sample count, data type code, figures, decimals; each is sent modulo 256. */
  datatype Format = Format(samples: int, dataType: int, figures: int, decimals: int)

  /**
   One sensor mode, the eight-element list of the source: name, format, raw,
   percent and SI ranges, unit symbol, function map, and whether the mode has
   a view.
   */
  datatype Mode = Mode(
    name: seq<byte>,
    format: Format,
    raw: Range,
    pct: Range,
    si: Range,
    units: seq<byte>,
    mapping: Mapping,
    hasView: bool)

  /**
   The longest text padString accepts: beyond 2^31 bytes the exponent
   reaches 32, exp << 3 reaches 256, and bytearray rejects the header.
   */
  const MaxText: nat := 0x8000_0000

  /** The longest text whose padded size still fits the three length-class bits. */
  const MaxFramedText: nat := 128

  /** ceil(log2 n), with 0 for an empty field: the least e with n <= 2^e. */
  function SizeExponent(n: nat): (e: nat)
    requires n <= MaxText
    ensures n <= Pow2(e) && (e == 0 || Pow2(e - 1) < n)
    ensures e <= 31 && (n <= MaxFramedText <==> e <= 7)
  {
    if n == 0 then 0
    else
      var e := CeilLog2(n);
      assert e <= 31 by {
        Pow2Table();
        CeilLog2Least(n, 31);
      }
      assert n <= 128 <==> e <= 7 by {
        Pow2Table();
        if n <= 128 {
          CeilLog2Least(n, 7);
        } else if e <= 7 {
          Pow2Monotone(e, 7);
        }
      }
      e
  }

  /** The payload of an info message is the text s followed by zero bytes. */
  predicate CarriesText(msg: seq<byte>, s: seq<byte>)
  {
    |s| + 3 <= |msg| && msg[2..|msg| - 1] == s + Zeros(|msg| - 3 - |s|)
  }

  /**
   A name or unit field: header, sub-id, the text, zero bytes up to the
   next power of two, and the check byte. The header's length class is the
   padded size's exponent, modulo 8: texts longer than 128 bytes overflow it.
   */
  function PadString(s: seq<byte>, num: byte, id: byte): (r: seq<byte>)
    requires |s| <= MaxText && num < 8
    ensures |r| == 3 + Pow2(SizeExponent(|s|)) && LengthClass(r[0]) == SizeExponent(|s|) % 8
    ensures Verifies(r) && r[1] == id && ModeIndex(r[0]) == num as nat
    ensures |s| <= MaxFramedText ==> InfoFramed(r, num)
    ensures CarriesText(r, s)
  {
    var exp := SizeExponent(|s|);
    var field := s + Zeros(Pow2(exp) - |s|);
    InfoMessage(exp, num, id, field)
  }

  /** A text longer than 128 bytes gets a header that announces a different length. */
  lemma PadStringLongMisframed(s: seq<byte>, num: byte, id: byte)
    requires MaxFramedText < |s| <= MaxText && num < 8
    ensures !WellFramed(PadString(s, num, id))
  {
    var r := PadString(s, num, id);
    var e := SizeExponent(|s|);
    Pow2Table();
    Pow2Monotone(8, e);
    Pow2Monotone(LengthClass(r[0]), 7);
    assert AnnouncedLength(r[0]) <= 131 < |r|;
  }

  /** An empty text still gets a one-byte field, a single zero. */
  lemma PadStringEmpty(num: byte, id: byte)
    requires num < 8
    ensures var r := PadString([], num, id); |r| == 4 && r[2] == 0
  {
    var r := PadString([], num, id);
    assert r[2..|r| - 1] == Zeros(|r| - 3);
  }

  /** A one-byte text fills its field with no padding. */
  lemma PadStringSingle(c: byte, num: byte, id: byte)
    requires num < 8
    ensures var r := PadString([c], num, id); |r| == 4 && r[2] == c
  {
    var r := PadString([c], num, id);
    assert Pow2(1) == 2;
    assert r[2..|r| - 1] == [c] + Zeros(|r| - 4);
  }

  /** A three-byte text is padded with one zero to a four-byte field. */
  lemma PadStringThree(a: byte, b: byte, c: byte, num: byte, id: byte)
    requires num < 8
    ensures var r := PadString([a, b, c], num, id); |r| == 7 && r[2..6] == [a, b, c, 0]
  {
    var r := PadString([a, b, c], num, id);
    assert Pow2(1) == 2 && Pow2(2) == 4 && Pow2(3) == 8;
    var lc := LengthClass(r[0]);
    assert lc == 2;
    assert r[2..|r| - 1] == [a, b, c] + Zeros(1);
  }

  /** The function-map message: length class 1, payload the two type tags. */
  function BuildFunctMap(m: Mapping, num: byte, id: byte): (r: seq<byte>)
    requires num < 8
    ensures InfoFramed(r, num) && |r| == 5 && LengthClass(r[0]) == 1
    ensures r[1] == id && r[2] == m.input && r[3] == m.output
  {
    InfoMessage(1, num, id, [m.input, m.output])
  }

  /** The range carried by a range message. */
  function RangeOf(msg: seq<byte>): Range
    requires |msg| == 11
  {
    Range(Unpack(Float, msg[2..6]).single, Unpack(Float, msg[6..10]).single)
  }

  /** A range message: length class 3, payload minimum then maximum, each a little-endian float. */
  function BuildRange(rg: Range, num: byte, id: byte): (r: seq<byte>)
    requires num < 8
    ensures InfoFramed(r, num) && |r| == 11 && LengthClass(r[0]) == 3
    ensures r[1] == id && RangeOf(r) == rg
  {
    var lo := EncodeSingle(rg.min);
    var hi := EncodeSingle(rg.max);
    var r := InfoMessage(3, num, id, lo + hi);
    assert r[2..6] == (lo + hi)[..4] && r[6..10] == (lo + hi)[4..];
    r
  }

  /** The four format fields a format message carries, as unsigned bytes. */
  function FormatFields(msg: seq<byte>): seq<int>
    requires |msg| == 7
  {
    [msg[2] as int, msg[3] as int, msg[4] as int, msg[5] as int]
  }

  /**
   x & 0xFF. Python's AND works on the two's complement of x, so it keeps
   the octet congruent to x modulo 256, for negative x too.
   */
  function LowByte(x: int): (b: byte)
    ensures (x - b as int) % 256 == 0
  {
    OctetRoundTrip(x % 256);
    assert x - x % 256 == 256 * (x / 256);
    (x % 256) as byte
  }

  /** The one octet congruent to x is its Euclidean residue, so fields built with & 0xFF read as x mod 256. */
  lemma LowByteIsResidue(x: int, b: byte)
    requires (x - b as int) % 256 == 0
    ensures b as int == x % 256 && b == LowByte(x)
  {
    var r := b as int;
    assert x - r == 256 * ((x - r) / 256);
    ResidueOf(x, (x - r) / 256, r);
    OctetRoundTrip(x % 256);
    ByteAsIntRoundTrip(b);
  }

  /** Euclidean division is unique: x = 256k + r with 0 <= r < 256 makes r the residue. */
  lemma ResidueOf(x: int, k: int, r: int)
    requires 0 <= r < 256 && x == 256 * k + r
    ensures x % 256 == r
  {
  }

  /** The four format fields, each taken & 0xFF. */
  function FormatBytes(f: Format): (b: seq<byte>)
    ensures |b| == 4
    ensures b[0] as int == f.samples % 256 && b[1] as int == f.dataType % 256
    ensures b[2] as int == f.figures % 256 && b[3] as int == f.decimals % 256
  {
    var s, d, g, e := LowByte(f.samples), LowByte(f.dataType), LowByte(f.figures), LowByte(f.decimals);
    assert s as int == f.samples % 256 by {
      LowByteIsResidue(f.samples, s);
    }
    assert d as int == f.dataType % 256 by {
      LowByteIsResidue(f.dataType, d);
    }
    assert g as int == f.figures % 256 by {
      LowByteIsResidue(f.figures, g);
    }
    assert e as int == f.decimals % 256 by {
      LowByteIsResidue(f.decimals, e);
    }
    [s, d, g, e]
  }

  /**
   The format message. Its header ORs the mode index into CmdModes (0x51),
   whose bits 0 and 4 are already set: the result is 0x51 | num, a command
   header, and bit 0 of the index is lost.
   */
  function BuildFormat(f: Format, num: byte, id: byte): (r: seq<byte>)
    requires num < 8
    ensures Verifies(r) && |r| == 7
    ensures r[0] == CmdModes | num
    ensures Kind(r[0]) == KindCmd && LengthClass(r[0]) == 2 && ModeIndex(r[0]) == (num | 1) as nat
    ensures r[1] == id
    ensures FormatFields(r) == [f.samples % 256, f.dataType % 256, f.figures % 256, f.decimals % 256]
  {
    var h := Header(CmdModes, 2, num);
    assert h == CmdModes | num;
    var fields := FormatBytes(f);
    var body := [h, id] + fields;
    var r := AddChecksum(body);
    assert r[..6] == body;
    r
  }

  /** Mode indices 0 and 1 get the same format header. */
  lemma FormatHeaderCollides(f: Format, g: Format, id: byte)
    ensures BuildFormat(f, 0, id)[0] == BuildFormat(g, 1, id)[0] == 0x51
  {
  }

  /** Under the header's own length class the format message is one byte too long. */
  lemma FormatOverrunsHeader(f: Format, num: byte, id: byte)
    requires num < 8
    ensures |BuildFormat(f, num, id)| == AnnouncedLength(BuildFormat(f, num, id)[0]) + 1
  {
  }

  /**
   The seven messages setupMode writes for mode index num, in write order:
   name, raw range, percent range, SI range, unit symbol, function map, format.
   */
  function SetupMode(m: Mode, num: byte): (msgs: seq<seq<byte>>)
    requires num < 8 && |m.name| <= MaxText && |m.units| <= MaxText
    ensures |msgs| == 7
    ensures |msgs[0]| > 3 && |msgs[1]| > 3 && |msgs[2]| > 3 && |msgs[3]| > 3
    ensures |msgs[4]| > 3 && |msgs[5]| > 3 && |msgs[6]| > 3
    ensures msgs[0][1] == InfoName && msgs[1][1] == InfoRaw && msgs[2][1] == InfoPct && msgs[3][1] == InfoSi
    ensures msgs[4][1] == InfoUnits && msgs[5][1] == InfoMapping && msgs[6][1] == InfoFormat
  {
    var name := PadString(m.name, num, InfoName);
    var raw := BuildRange(m.raw, num, InfoRaw);
    var pct := BuildRange(m.pct, num, InfoPct);
    var si := BuildRange(m.si, num, InfoSi);
    var units := PadString(m.units, num, InfoUnits);
    var fmap := BuildFunctMap(m.mapping, num, InfoMapping);
    var format := BuildFormat(m.format, num, InfoFormat);
    [name, raw, pct, si, units, fmap, format]
  }

  /**
   Every message setupMode writes carries a valid check byte; all but the
   format message are info messages about mode num that announce their own
   length, the name and unit messages only while their texts fit 128 bytes.
   */
  lemma SetupModeFramed(m: Mode, num: byte)
    requires num < 8 && |m.name| <= MaxText && |m.units| <= MaxText
    ensures var msgs := SetupMode(m, num);
      && Verifies(msgs[0]) && Verifies(msgs[4]) && Verifies(msgs[6])
      && (|m.name| <= MaxFramedText ==> InfoFramed(msgs[0], num))
      && (|m.units| <= MaxFramedText ==> InfoFramed(msgs[4], num))
      && InfoFramed(msgs[1], num) && InfoFramed(msgs[2], num) && InfoFramed(msgs[3], num)
      && InfoFramed(msgs[5], num)
  {
    var msgs := SetupMode(m, num);
    assert msgs[0] == PadString(m.name, num, InfoName);
    assert msgs[1] == BuildRange(m.raw, num, InfoRaw);
    assert msgs[2] == BuildRange(m.pct, num, InfoPct);
    assert msgs[3] == BuildRange(m.si, num, InfoSi);
    assert msgs[4] == PadString(m.units, num, InfoUnits);
    assert msgs[5] == BuildFunctMap(m.mapping, num, InfoMapping);
    assert msgs[6] == BuildFormat(m.format, num, InfoFormat);
  }

  /** The name and unit messages carry the mode's name and unit symbol, zero-padded. */
  lemma SetupModeTexts(m: Mode, num: byte)
    requires num < 8 && |m.name| <= MaxText && |m.units| <= MaxText
    ensures CarriesText(SetupMode(m, num)[0], m.name) && CarriesText(SetupMode(m, num)[4], m.units)
  {
    var msgs := SetupMode(m, num);
    assert msgs[0] == PadString(m.name, num, InfoName);
    assert msgs[4] == PadString(m.units, num, InfoUnits);
  }

  /** The three range messages carry the raw, percent and SI ranges, in that order. */
  lemma SetupModeRanges(m: Mode, num: byte)
    requires num < 8 && |m.name| <= MaxText && |m.units| <= MaxText
    ensures var msgs := SetupMode(m, num);
      && |msgs[1]| == |msgs[2]| == |msgs[3]| == 11
      && RangeOf(msgs[1]) == m.raw && RangeOf(msgs[2]) == m.pct && RangeOf(msgs[3]) == m.si
  {
    var msgs := SetupMode(m, num);
    assert msgs[1] == BuildRange(m.raw, num, InfoRaw);
    assert msgs[2] == BuildRange(m.pct, num, InfoPct);
    assert msgs[3] == BuildRange(m.si, num, InfoSi);
  }

  /** The function-map and format messages carry the mode's map and its format fields modulo 256. */
  lemma SetupModeMapAndFormat(m: Mode, num: byte)
    requires num < 8 && |m.name| <= MaxText && |m.units| <= MaxText
    ensures var msgs := SetupMode(m, num);
      && |msgs[5]| == 5 && msgs[5][2] == m.mapping.input && msgs[5][3] == m.mapping.output
      && msgs[6][0] == CmdModes | num
      && FormatFields(msgs[6])
         == [m.format.samples % 256, m.format.dataType % 256, m.format.figures % 256, m.format.decimals % 256]
  {
    var msgs := SetupMode(m, num);
    assert msgs[5] == BuildFunctMap(m.mapping, num, InfoMapping);
    assert msgs[6] == BuildFormat(m.format, num, InfoFormat);
  }

  /** A piece Split returns is exactly as long as its header announces. */
  lemma {:induction false} SplitPiecesAnnounced(stream: seq<byte>)
    requires Split(stream).Some?
    ensures forall p :: p in Split(stream).value ==> |p| >= 1 && |p| == AnnouncedLength(p[0])
    decreases |stream|
  {
    if |stream| > 0 {
      var n := AnnouncedLength(stream[0]);
      SplitPiecesAnnounced(stream[n..]);
    }
  }

  /** With name and unit symbol of at most 128 bytes, a receiver recovers the six info messages setupMode writes, one by one, from their headers. */
  lemma SetupModeInfoStream(m: Mode, num: byte)
    requires num < 8 && |m.name| <= MaxFramedText && |m.units| <= MaxFramedText
    ensures Split(Flatten(SetupMode(m, num)[..6])) == Some(SetupMode(m, num)[..6])
  {
    var msgs := SetupMode(m, num);
    var info := msgs[..6];
    SetupModeFramed(m, num);
    forall i | 0 <= i < 6
      ensures |info[i]| >= 1 && |info[i]| == AnnouncedLength(info[i][0])
    {
      assert info[i] == msgs[i];
      assert InfoFramed(msgs[i], num) by {
        if i == 0 {} else if i == 1 {} else if i == 2 {} else if i == 3 {} else if i == 4 {} else {}
      }
    }
    SplitFlatten(info);
  }

  /**
   The whole stream setupMode writes does not cut back into its seven
   messages: the format message is longer than its header announces.
   */
  lemma SetupModeStreamMisframed(m: Mode, num: byte)
    requires num < 8 && |m.name| <= MaxText && |m.units| <= MaxText
    ensures Split(Flatten(SetupMode(m, num))) != Some(SetupMode(m, num))
  {
    var msgs := SetupMode(m, num);
    FormatOverrunsHeader(m.format, num, InfoFormat);
    if Split(Flatten(msgs)) == Some(msgs) {
      SplitPiecesAnnounced(Flatten(msgs));
      assert false;
    }
  }
}
