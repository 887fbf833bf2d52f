/**
 The sample types of a data telegram, their byte widths, and how one sample
 is packed by MicroPython's ustruct ('<b', '<B', '<h', '<H', '<l', '<L', '<f'
 in uart/rp2/LPF2.py:26-28 and LPF2.py:22-24). ustruct does not range-check
 integers: it writes their low bytes.

 A float is represented by its IEEE-754 single-precision bit pattern: packing
 writes that pattern little-endian, and how a Python float rounds to it is not
 modelled.
 */
module Numeric {
  import opened Results
  import opened Bytes

  datatype NumericType = Int8 | UInt8 | Int16 | UInt16 | Int32 | UInt32 | Float

  /** A 32-bit pattern. */
  type Bits32 = x: nat | x < 0x1_0000_0000

  /** A single-precision float, as its bit pattern. */
  datatype Single = Single(bits: Bits32)

  /** A value handed to the packer: a Python int, or a float. */
  datatype Sample = Integer(value: int) | Floating(single: Single)

  /** Bytes per sample (the `length` table). */
  function Width(t: NumericType): (w: nat)
    ensures w == 1 || w == 2 || w == 4
    ensures t == Int8 || t == UInt8 <==> w == 1
    ensures t == Int16 || t == UInt16 <==> w == 2
  {
    match t
    case Int8 => 1
    case UInt8 => 1
    case Int16 => 2
    case UInt16 => 2
    case Int32 => 4
    case UInt32 => 4
    case Float => 4
  }

  predicate Signed(t: NumericType)
  {
    t == Int8 || t == Int16 || t == Int32
  }

  /** The number of distinct values of a sample's width. */
  function Modulus(t: NumericType): nat
  {
    if Width(t) == 1 then 0x100 else if Width(t) == 2 then 0x1_0000 else 0x1_0000_0000
  }

  /** Half the modulus: the first value a signed type reads as negative. */
  function Half(t: NumericType): nat
  {
    if Width(t) == 1 then 0x80 else if Width(t) == 2 then 0x8000 else 0x8000_0000
  }

  lemma ModulusIsPow256(t: NumericType)
    ensures Modulus(t) == Pow256(Width(t)) && Modulus(t) == 2 * Half(t)
  {
    assert Pow256(1) == 256;
    assert Pow256(2) == 0x1_0000;
    assert Pow256(4) == 0x1_0000_0000 by {
      assert Pow256(3) == 0x100_0000;
    }
  }

  /** The integers an integer type holds exactly. */
  predicate InRange(t: NumericType, v: int)
  {
    if Signed(t) then -(Half(t) as int) <= v < Half(t) else 0 <= v < Modulus(t)
  }

  /**
   A sample of the right kind for t. For 'float' ustruct.pack would also
   convert a Python int to single precision; that rounding is not modelled,
   so float samples are required.
   */
  predicate KindFits(t: NumericType, s: Sample)
  {
    t == Float ==> s.Floating?
  }

  /**
   The integer a signed or unsigned type reads from the unsigned value u of
   its bytes: two's complement for the signed types.
   */
  function SignedValue(t: NumericType, u: nat): int
  {
    if Signed(t) && u >= Half(t) then u - Modulus(t) else u
  }

  /** Reads one sample back from its Width(t) little-endian bytes. */
  function Unpack(t: NumericType, b: seq<byte>): Sample
    requires |b| == Width(t)
  {
    var u := FromLE(b);
    if t == Float then Floating(Single(u)) else Integer(SignedValue(t, u))
  }

  /**
   The sample a packed value reads back as. ustruct does not range-check an
   integer: it keeps the low Width(t) bytes, so the integer reads back as
   the type's representative of its residue modulo 256^width. A float is
   unchanged.
   */
  function Stored(t: NumericType, s: Sample): Sample
  {
    match s
    case Floating(_) => s
    case Integer(v) => Integer(SignedValue(t, v % Modulus(t)))
  }

  /** A sample the type holds exactly: any float, or an integer within the type's range. */
  predicate Representable(t: NumericType, s: Sample)
  {
    match s
    case Floating(_) => true
    case Integer(v) => InRange(t, v)
  }

  /**
   The stored integer is in the type's range and congruent to the original
   modulo 256^width, and storing changes a sample exactly when the type
   cannot represent it.
   */
  lemma StoredInRange(t: NumericType, s: Sample)
    ensures Stored(t, s).Integer? <==> s.Integer?
    ensures s.Integer? ==> InRange(t, Stored(t, s).value) && Stored(t, s).value % Modulus(t) == s.value % Modulus(t)
    ensures Stored(t, s) == s <==> Representable(t, s)
  {
    if s.Integer? {
      var v := s.value;
      var m := Modulus(t);
      var u := v % m;
      if Signed(t) && u >= Half(t) {
        ModOfNegative(u - m, m);
      } else {
        ModOfSmall(u, m);
      }
      if InRange(t, v) {
        if v < 0 {
          ModOfNegative(v, m);
        } else {
          ModOfSmall(v, m);
        }
      }
    }
  }

  /** struct.pack('<f'): the bit pattern as four little-endian bytes. */
  function EncodeSingle(f: Single): (b: seq<byte>)
    ensures |b| == 4 && Unpack(Float, b) == Floating(f)
  {
    FromLEToLE(f.bits, 4);
    ToLE(f.bits, 4)
  }

  /**
   ustruct.pack of one sample, None where it raises: a float given for an
   integer type. An integer is reduced modulo 256^width and written in
   Width(t) little-endian bytes.
   */
  function Pack(t: NumericType, s: Sample): (r: Option<seq<byte>>)
    requires KindFits(t, s)
    ensures r.Some? <==> t == Float || s.Integer?
    ensures r.Some? ==> |r.value| == Width(t) && Unpack(t, r.value) == Stored(t, s)
  {
    match s
    case Floating(f) =>
      if t == Float then Some(EncodeSingle(f)) else None
    case Integer(v) =>
      IntegerReadsBack(t, v);
      Some(ToLE(v % Modulus(t), Width(t)))
  }

  /** Two's complement: an integer reduced modulo 256^width unpacks to its stored value. */
  lemma IntegerReadsBack(t: NumericType, v: int)
    requires t != Float
    ensures Modulus(t) == Pow256(Width(t))
    ensures Unpack(t, ToLE(v % Modulus(t), Width(t))) == Stored(t, Integer(v))
  {
    ModulusIsPow256(t);
    FromLEToLE(v % Modulus(t), Width(t));
  }

  /** A packed sample reads back as itself exactly when its type represents it. */
  lemma PackReadsBackExactly(t: NumericType, s: Sample)
    requires KindFits(t, s) && Pack(t, s).Some?
    ensures Unpack(t, Pack(t, s).value) == s <==> Representable(t, s)
  {
    StoredInRange(t, s);
  }

  /** Every byte string of a sample's width is the packing of some sample: the two directions of the codec. */
  lemma PackUnpack(t: NumericType, b: seq<byte>)
    requires |b| == Width(t)
    ensures Pack(t, Unpack(t, b)) == Some(b)
  {
    ToLEFromLE(b);
    if t == Float {
      assert EncodeSingle(Single(FromLE(b))) == b;
    } else {
      UnpackInRange(t, b);
    }
  }

  /** An unpacked integer is in its type's range, and reducing it modulo 256^width restores the bytes' value. */
  lemma UnpackInRange(t: NumericType, b: seq<byte>)
    requires |b| == Width(t) && t != Float
    ensures Unpack(t, b).Integer? && InRange(t, Unpack(t, b).value)
    ensures Unpack(t, b).value % Modulus(t) == FromLE(b)
  {
    var u: int := FromLE(b);
    var m: int := Modulus(t);
    ModulusIsPow256(t);
    if Signed(t) && u >= Half(t) {
      ModOfNegative(u - m, m);
    } else {
      ModOfSmall(u, m);
    }
  }

  /** n + 1 samples fill whole widths: arithmetic the solver needs case by case. */
  lemma WholeSamples(t: NumericType, n: nat)
    ensures (n + 1) * Width(t) == Width(t) + n * Width(t)
    ensures (n * Width(t)) % Width(t) == 0
    ensures (Width(t) + n * Width(t)) % Width(t) == 0
  {
    var w := Width(t);
    if w == 1 {
      assert n * w == n;
    } else if w == 2 {
      assert n * w == 2 * n && (n + 1) * w == 2 * n + 2;
      assert (2 * n) % 2 == 0 && (2 * n + 2) % 2 == 0;
    } else {
      assert n * w == 4 * n && (n + 1) * w == 4 * n + 4;
      assert (4 * n) % 4 == 0 && (4 * n + 4) % 4 == 0;
    }
  }

  /** Reads back consecutive samples of width Width(t). */
  function UnpackAll(t: NumericType, b: seq<byte>): seq<Sample>
    requires |b| % Width(t) == 0
    decreases |b|
  {
    if |b| == 0 then [] else [Unpack(t, b[..Width(t)])] + UnpackAll(t, b[Width(t)..])
  }

  /** The samples a packed list reads back as, element by element. */
  function StoredAll(t: NumericType, xs: seq<Sample>): (ys: seq<Sample>)
    ensures |ys| == |xs| && forall i :: 0 <= i < |xs| ==> ys[i] == Stored(t, xs[i])
  {
    if |xs| == 0 then [] else [Stored(t, xs[0])] + StoredAll(t, xs[1..])
  }

  /** A list reads back unchanged exactly when its type represents every element. */
  lemma StoredAllExact(t: NumericType, xs: seq<Sample>)
    ensures StoredAll(t, xs) == xs <==> forall i :: 0 <= i < |xs| ==> Representable(t, xs[i])
  {
    forall i | 0 <= i < |xs| {
      StoredInRange(t, xs[i]);
    }
    if StoredAll(t, xs) != xs {
      var ys := StoredAll(t, xs);
      var i :| 0 <= i < |xs| && ys[i] != xs[i];
      assert !Representable(t, xs[i]);
    }
  }

  /** The first k samples read back unchanged exactly when the type represents each of them. */
  lemma StoredPrefixExact(t: NumericType, xs: seq<Sample>, k: nat)
    requires k <= |xs|
    ensures StoredAll(t, xs[..k]) == xs[..k] <==> forall i :: 0 <= i < k ==> Representable(t, xs[i])
  {
    var kept := xs[..k];
    StoredAllExact(t, kept);
    assert forall i :: 0 <= i < k ==> kept[i] == xs[i];
  }

  /** One step of the packing loop: a packed head before the packed rest reads back as the whole list, stored. */
  lemma PackAllStep(t: NumericType, xs: seq<Sample>, head: seq<byte>, tail: seq<byte>)
    requires |xs| > 0 && |head| == Width(t) && Unpack(t, head) == Stored(t, xs[0])
    requires |tail| == (|xs| - 1) * Width(t) && |tail| % Width(t) == 0 && UnpackAll(t, tail) == StoredAll(t, xs[1..])
    ensures |head + tail| == |xs| * Width(t) && |head + tail| % Width(t) == 0
    ensures UnpackAll(t, head + tail) == StoredAll(t, xs)
  {
    var w := Width(t);
    var b := head + tail;
    WholeSamples(t, |xs| - 1);
    assert b[..w] == head && b[w..] == tail;
    assert UnpackAll(t, b) == [Unpack(t, head)] + UnpackAll(t, tail);
  }

  /** The packing loop of sendData: samples packed in order and concatenated; None if any sample fails. */
  function PackAll(t: NumericType, xs: seq<Sample>): (r: Option<seq<byte>>)
    requires forall i :: 0 <= i < |xs| ==> KindFits(t, xs[i])
    ensures r.Some? <==> forall i :: 0 <= i < |xs| ==> Pack(t, xs[i]).Some?
    ensures r.Some? ==> |r.value| == |xs| * Width(t)
  {
    if |xs| == 0 then Some([])
    else
      match Pack(t, xs[0])
      case None => None
      case Some(head) =>
        match PackAll(t, xs[1..])
        case None =>
          assert exists i :: 0 <= i < |xs| && Pack(t, xs[i]).None? by {
            var j :| 0 <= j < |xs[1..]| && Pack(t, xs[1..][j]).None?;
            assert Pack(t, xs[j + 1]).None?;
          }
          None
        case Some(tail) =>
          WholeSamples(t, |xs| - 1);
          Some(head + tail)
  }

  /** Packed samples read back, in order, as the samples stored. */
  lemma {:induction false} PackAllReadsBack(t: NumericType, xs: seq<Sample>)
    requires forall i :: 0 <= i < |xs| ==> KindFits(t, xs[i])
    requires PackAll(t, xs).Some?
    ensures |PackAll(t, xs).value| % Width(t) == 0
    ensures UnpackAll(t, PackAll(t, xs).value) == StoredAll(t, xs)
  {
    if |xs| > 0 {
      var head := Pack(t, xs[0]).value;
      var tail := PackAll(t, xs[1..]).value;
      assert PackAll(t, xs).value == head + tail;
      PackAllReadsBack(t, xs[1..]);
      PackAllStep(t, xs, head, tail);
    }
  }
}
