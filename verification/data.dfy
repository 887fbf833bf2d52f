/**
 The data telegram sendData writes (uart/rp2/LPF2.py:42-54, and the identical
 LPF2.py:38-50): a header 0xC0 | bit << 3 | mode followed by the packed
 samples. The header's length class is bit, and the payload holds exactly
 2^bit bytes. No check byte is appended.
 */
module Data {
  import opened Results
  import opened Bytes
  import opened Frames
  import opened Numeric

  /** The data argument: one value, or a Python list of values. */
  datatype Reading = Scalar(sample: Sample) | Array(samples: seq<Sample>)

  /**
   The exceptions sendData can raise: math.log2(0) on an empty list, and
   ustruct.pack rejecting a float given for an integer type.
   */
  datatype SendError = MathDomain | PackError

  /** Every value that is packed (a list's first KeptCount elements) is of a kind the packer is modelled for. */
  predicate ReadingFits(t: NumericType, reading: Reading)
  {
    match reading
    case Scalar(s) => KindFits(t, s)
    case Array(xs) => |xs| > 0 ==> forall i :: 0 <= i < KeptCount(t, |xs|) ==> KindFits(t, xs[i])
  }

  /** A data telegram as sent for mode index mode: header, then 2^class payload bytes. */
  predicate DataTelegram(m: seq<byte>, mode: byte)
  {
    && |m| >= 1
    && Kind(m[0]) == KindData
    && ModeIndex(m[0]) == mode as nat
    && |m| == 1 + Pow2(LengthClass(m[0]))
  }

  /** floor(log2(width * n)), capped at 4: a list telegram never carries more than 16 bytes. */
  function ArrayExponent(t: NumericType, n: nat): (e: nat)
    requires n >= 1
    ensures e <= 4
  {
    var bit := FloorLog2(Width(t) * n);
    if bit > 4 then 4 else bit
  }

  /**
   The capped exponent still reaches the width and never exceeds the list's
   byte count; below the cap it is the largest that fits.
   */
  lemma ExponentCoversWidth(t: NumericType, n: nat)
    requires n >= 1
    ensures var p := Pow2(ArrayExponent(t, n));
      && (p == 1 || p == 2 || p == 4 || p == 8 || p == 16)
      && Width(t) <= p <= Width(t) * n
      && (p == 16 || Width(t) * n < 2 * p)
  {
    var w := Width(t);
    var bytes := w * n;
    assert w <= bytes by {
      WholeSamples(t, n - 1);
    }
    var full := FloorLog2(bytes);
    var e := ArrayExponent(t, n);
    var p := Pow2(e);
    assert p == 1 || p == 2 || p == 4 || p == 8 || p == 16 by {
      if e == 0 {} else if e == 1 {} else if e == 2 {} else if e == 3 {} else {}
    }
    assert p <= bytes by {
      Pow2Monotone(e, full);
    }
    assert w <= p by {
      if e < 4 {
        assert e == full;
        if full == 0 {
          assert Pow2(1) == 2;
        } else if full == 1 {
          assert Pow2(2) == 4;
        } else {
          Pow2Monotone(2, full);
          assert Pow2(2) == 4;
        }
      }
    }
    assert p == 16 || bytes < 2 * p by {
      if e < 4 {
        assert bytes < Pow2(full + 1);
      }
    }
  }

  /** Dividing a power of two by a smaller power-of-two width: linear facts, case by case. */
  lemma QuotientFacts(w: nat, p: nat, n: nat)
    requires w == 1 || w == 2 || w == 4
    requires p == 1 || p == 2 || p == 4 || p == 8 || p == 16
    requires w <= p <= w * n
    requires p == 16 || w * n < 2 * p
    ensures p / w * w == p && 1 <= p / w <= n
    ensures 2 * (p / w) > n || 2 * (p / w) * w > 16
  {
    if w == 1 {
    } else if w == 2 {
      assert p / 2 * 2 == p;
    } else {
      assert p / 4 * 4 == p;
    }
  }

  /**
   How many list elements are packed: floor(2^bit / width). They fill the
   2^bit bytes exactly, and they are as many as possible: never more than
   the list has, and doubling them would exceed either the list or the
   16-byte cap.
   */
  function KeptCount(t: NumericType, n: nat): (k: nat)
    requires n >= 1
    ensures 1 <= k <= n
    ensures k * Width(t) == Pow2(ArrayExponent(t, n)) <= 16
    ensures 2 * k > n || 2 * k * Width(t) > 16
  {
    var p := Pow2(ArrayExponent(t, n));
    ExponentCoversWidth(t, n);
    QuotientFacts(Width(t), p, n);
    p / Width(t)
  }

  /** The header 0xC0 | bit << 3 | mode, then the payload, with no check byte. */
  function DataFrame(bit: nat, mode: byte, payload: seq<byte>): (m: seq<byte>)
    requires bit < 8 && mode < 8 && |payload| == Pow2(bit)
    ensures DataTelegram(m, mode) && LengthClass(m[0]) == bit
    ensures m[1..] == payload
  {
    var m := [Header(CmdData, bit, mode)] + payload;
    assert m[1..] == payload;
    m
  }

  /** A single value: length class log2(width), payload the packed value. */
  function ScalarTelegram(t: NumericType, s: Sample, mode: byte): (r: Result<seq<byte>, SendError>)
    requires mode < 8 && KindFits(t, s)
    ensures r.Ok? <==> Pack(t, s).Some?
    ensures r.Err? ==> r.error == PackError
    ensures r.Ok? ==> DataTelegram(r.value, mode) && |r.value| == 1 + Width(t)
    ensures r.Ok? ==> Unpack(t, r.value[1..]) == Stored(t, s)
    ensures r.Ok? ==> (Unpack(t, r.value[1..]) == s <==> Representable(t, s))
  {
    var bit := FloorLog2(Width(t));
    assert Pow2(bit) == Width(t) by {
      assert Pow2(1) == 2 && Pow2(2) == 4;
      if Width(t) == 4 && bit < 2 {
        assert false;
      }
    }
    match Pack(t, s)
    case None => Err(PackError)
    case Some(value) =>
      StoredInRange(t, s);
      Ok(DataFrame(bit, mode, value))
  }

  /** Packing the first k samples succeeds exactly when each of them packs. */
  lemma PackAllPrefix(t: NumericType, xs: seq<Sample>, k: nat)
    requires k <= |xs| && forall i :: 0 <= i < k ==> KindFits(t, xs[i])
    ensures PackAll(t, xs[..k]).Some? <==> forall i :: 0 <= i < k ==> Pack(t, xs[i]).Some?
  {
    var kept := xs[..k];
    assert forall i :: 0 <= i < k ==> kept[i] == xs[i];
  }

  /**
   A list: the first KeptCount elements packed in order; math.log2(0)
   fails on the empty list.
   */
  function ArrayTelegram(t: NumericType, xs: seq<Sample>, mode: byte): (r: Result<seq<byte>, SendError>)
    requires mode < 8 && ReadingFits(t, Array(xs))
    ensures r == Err(MathDomain) <==> |xs| == 0
    ensures |xs| > 0 ==> (r.Ok? <==> forall i :: 0 <= i < KeptCount(t, |xs|) ==> Pack(t, xs[i]).Some?)
    ensures r.Ok? ==> DataTelegram(r.value, mode) && LengthClass(r.value[0]) == ArrayExponent(t, |xs|)
    ensures r.Ok? ==> |r.value[1..]| % Width(t) == 0 && UnpackAll(t, r.value[1..]) == StoredAll(t, xs[..KeptCount(t, |xs|)])
  {
    if |xs| == 0 then Err(MathDomain)
    else
      var bit := ArrayExponent(t, |xs|);
      var kept := xs[..KeptCount(t, |xs|)];
      PackAllPrefix(t, xs, |kept|);
      match PackAll(t, kept)
      case None =>
        Err(PackError)
      case Some(value) =>
        PackAllReadsBack(t, kept);
        Ok(DataFrame(bit, mode, value))
  }

  /** A list telegram's payload reads back as the kept elements exactly when the type represents each of them. */
  lemma ArrayReadsBackExactly(t: NumericType, xs: seq<Sample>, mode: byte)
    requires mode < 8 && ReadingFits(t, Array(xs)) && ArrayTelegram(t, xs, mode).Ok?
    ensures var payload := ArrayTelegram(t, xs, mode).value[1..];
      UnpackAll(t, payload) == xs[..KeptCount(t, |xs|)] <==>
      forall i :: 0 <= i < KeptCount(t, |xs|) ==> Representable(t, xs[i])
  {
    var k := KeptCount(t, |xs|);
    var payload := ArrayTelegram(t, xs, mode).value[1..];
    assert UnpackAll(t, payload) == StoredAll(t, xs[..k]);
    StoredPrefixExact(t, xs, k);
  }

  /** sendData: the telegram for one value or a list of values of type t. */
  function SendData(t: NumericType, reading: Reading, mode: byte): (r: Result<seq<byte>, SendError>)
    requires mode < 8 && ReadingFits(t, reading)
    ensures r.Ok? ==> DataTelegram(r.value, mode)
    ensures r == Err(MathDomain) <==> reading == Array([])
    ensures reading.Scalar? ==> (r.Ok? <==> Pack(t, reading.sample).Some?)
    ensures reading.Scalar? && r.Ok? ==>
      && |r.value| == 1 + Width(t)
      && Unpack(t, r.value[1..]) == Stored(t, reading.sample)
      && (Unpack(t, r.value[1..]) == reading.sample <==> Representable(t, reading.sample))
    ensures reading.Array? && r.Ok? ==>
      && |r.value[1..]| % Width(t) == 0
      && UnpackAll(t, r.value[1..]) == StoredAll(t, reading.samples[..KeptCount(t, |reading.samples|)])
  {
    match reading
    case Scalar(s) => ScalarTelegram(t, s, mode)
    case Array(xs) => ArrayTelegram(t, xs, mode)
  }

  /**
   A data telegram is one byte shorter than a receiver that expects a check
   byte after the payload reads for its header.
   */
  lemma DataTelegramLacksCheckByte(m: seq<byte>, mode: byte)
    requires DataTelegram(m, mode)
    ensures |m| + 1 == AnnouncedLength(m[0])
    ensures !WellFramed(m)
  {
  }

  /** -1234 packs as Int16 to 0x2E 0xFB: its two's complement 0xFB2E, low byte first. */
  lemma PackInt16Example()
    ensures Pack(Int16, Integer(-1234)) == Some([0x2E, 0xFB])
  {
    var b: seq<byte> := [0x2E, 0xFB];
    assert FromLE(b[1..]) == 0xFB by {
      assert FromLE(b[1..][1..]) == 0;
    }
    assert FromLE(b) == 0xFB2E;
    assert Unpack(Int16, b) == Integer(-1234);
    PackUnpack(Int16, b);
  }

  /** An Int16 reading of -1234 for mode 2: header 0xCA, then the packed value. */
  lemma SendDataInt16Example()
    ensures SendData(Int16, Scalar(Integer(-1234)), 2) == Ok([0xCA, 0x2E, 0xFB])
  {
    assert FloorLog2(2) == 1;
    var h := Header(CmdData, 1, 2);
    assert h == 0xCA;
    PackInt16Example();
    assert SendData(Int16, Scalar(Integer(-1234)), 2) == ScalarTelegram(Int16, Integer(-1234), 2);
    assert ScalarTelegram(Int16, Integer(-1234), 2) == Ok([h] + [0x2E, 0xFB]);
    assert [h] + [0x2E, 0xFB] == [0xCA, 0x2E, 0xFB];
  }

  /** ustruct keeps the low bytes: 40000 packs as Int16 to 0x40 0x9C, which reads back as -25536. */
  lemma PackInt16WrapExample()
    ensures Pack(Int16, Integer(40000)) == Some([0x40, 0x9C])
    ensures Unpack(Int16, [0x40, 0x9C]) == Integer(-25536)
  {
    var b: seq<byte> := [0x40, 0x9C];
    assert FromLE(b[1..]) == 0x9C by {
      assert FromLE(b[1..][1..]) == 0;
    }
    assert FromLE(b) == 0x9C40;
    assert Unpack(Int16, b) == Integer(-25536);
    PackUnpack(Int16, b);
    assert 40000 % 0x1_0000 == -25536 % 0x1_0000;
  }

  /** An Int16 reading of 40000 for mode 0 is sent as 0xC8 0x40 0x9C, with no range error. */
  lemma SendDataInt16WrapExample()
    ensures SendData(Int16, Scalar(Integer(40000)), 0) == Ok([0xC8, 0x40, 0x9C])
  {
    assert FloorLog2(2) == 1;
    var h := Header(CmdData, 1, 0);
    assert h == 0xC8;
    PackInt16WrapExample();
    assert SendData(Int16, Scalar(Integer(40000)), 0) == ScalarTelegram(Int16, Integer(40000), 0);
    assert ScalarTelegram(Int16, Integer(40000), 0) == Ok([h] + [0x40, 0x9C]);
    assert [h] + [0x40, 0x9C] == [0xC8, 0x40, 0x9C];
  }

  /** Five floats keep four: the 16-byte cap. */
  lemma FiveFloatsKeepFour()
    ensures KeptCount(Float, 5) == 4 && ArrayExponent(Float, 5) == 4
  {
    assert Pow2(4) == 16 && Pow2(5) == 32;
    FloorLog2Unique(20, 4);
    assert ArrayExponent(Float, 5) == 4;
  }

  /** Three Int16 values keep two: 6 bytes round down to 4. */
  lemma ThreeInt16KeepTwo()
    ensures KeptCount(Int16, 3) == 2 && ArrayExponent(Int16, 3) == 2
  {
    assert Pow2(2) == 4 && Pow2(3) == 8;
    FloorLog2Unique(6, 2);
    assert ArrayExponent(Int16, 3) == 2;
  }
}
