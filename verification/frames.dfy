/**
 The LPF2 header byte and the wire constants the device side uses.

 A header packs three fields: the message kind in bits 6-7 (system, command,
 info, data), the length class in bits 3-5 (the payload holds 2^class bytes)
 and the mode index in bits 0-2. An info message carries one sub-id byte
 between its header and its payload, and every message other than a system
 byte ends with a check byte. This module states that receiver's view of a
 byte stream, so that what the builders produce can be compared with it.
 */
module Frames {
  import opened Results
  import opened Bytes
  import opened Checksum

  // Command bytes and bases (uart/rp2/LPF2.py:5-13)
  const CmdModes: byte := 0x51
  const CmdSpeed: byte := 0x52
  const CmdVersion: byte := 0x5F
  const CmdData: byte := 0xC0
  const CmdType: byte := 0x40
  /** The literal first byte of the mode-count message. */
  const CmdModeCount: byte := 0x49
  /** The length-class field starts at bit 3. */
  const LengthShift: bv8 := 3

  // Info sub-ids (uart/rp2/LPF2.py:15-22); InfoFormat doubles as the info header base.
  const InfoName: byte := 0x00
  const InfoRaw: byte := 0x01
  const InfoPct: byte := 0x02
  const InfoSi: byte := 0x03
  const InfoUnits: byte := 0x04
  const InfoMapping: byte := 0x05
  const InfoFormat: byte := 0x80

  // Message kinds, header bits 6-7.
  const KindSys: nat := 0
  const KindCmd: nat := 1
  const KindInfo: nat := 2
  const KindData: nat := 3

  function Kind(h: byte): nat
  {
    (h >> 6) as nat
  }

  function LengthClass(h: byte): nat
  {
    ((h >> 3) & 7) as nat
  }

  function ModeIndex(h: byte): nat
  {
    (h & 7) as nat
  }

  /** exp << 3 as an octet: bits 3-5 hold exp mod 8, bits 6-7 whatever of exp spills over, bits 0-2 are clear. */
  lemma LengthField(exp: nat)
    requires exp < 32
    ensures var f := (exp as bv8) << LengthShift;
      && ((f >> 3) & 7) as nat == exp % 8
      && f & 7 == 0
      && (exp < 8 ==> f & 0xC0 == 0)
  {
    // The solver converts integers to octets reliably only on narrow ranges.
    if exp < 8 {} else if exp < 16 {} else if exp < 24 {} else {}
  }

  /**
   base | exp << 3 | index, the header every builder assembles. Exponents up
   to 31 keep exp << 3 below 256; from 8 on they spill into the kind bits.
   */
  function Header(base: byte, exp: nat, index: byte): (h: byte)
    requires exp < 32 && index < 8
    ensures h & base == base
    ensures base & 0x3F == 0 ==> LengthClass(h) == exp % 8 && ModeIndex(h) == index as nat
    ensures base & 0x3F == 0 && exp < 8 ==> Kind(h) == Kind(base)
  {
    var field := (exp as bv8) << LengthShift;
    var h := base | field | index;
    assert base & 0x3F == 0 ==> LengthClass(h) == exp % 8 && ModeIndex(h) == index as nat by {
      LengthField(exp);
      assert base & 0x3F == 0 ==> (h >> 3) & 7 == (field >> 3) & 7 && h & 7 == index;
    }
    assert base & 0x3F == 0 && exp < 8 ==> Kind(h) == Kind(base) by {
      LengthField(exp);
      assert base & 0x3F == 0 && field & 0xC0 == 0 ==> h >> 6 == base >> 6;
    }
    h
  }

  /** How many bytes a receiver reads for a message starting with header h. */
  function AnnouncedLength(h: byte): (n: nat)
    ensures n >= 1
  {
    if Kind(h) == KindSys then 1
    else 1 + (if Kind(h) == KindInfo then 1 else 0) + Pow2(LengthClass(h)) + 1
  }

  /** A checksummed message exactly as long as its header announces. */
  predicate WellFramed(m: seq<byte>)
  {
    && |m| >= 1
    && Kind(m[0]) != KindSys
    && |m| == AnnouncedLength(m[0])
    && Verifies(m)
  }

  /** A well-framed info message about mode index num. */
  predicate InfoFramed(m: seq<byte>, num: byte)
  {
    WellFramed(m) && Kind(m[0]) == KindInfo && ModeIndex(m[0]) == num as nat
  }

  /**
   An info message: header, sub-id, a payload of 2^exp bytes, and the check
   byte. Its header announces the payload only while exp < 8.
   */
  function InfoMessage(exp: nat, num: byte, id: byte, payload: seq<byte>): (r: seq<byte>)
    requires exp < 32 && num < 8 && |payload| == Pow2(exp)
    ensures Verifies(r) && |r| == |payload| + 3
    ensures r[1] == id && r[2..|r| - 1] == payload
    ensures ModeIndex(r[0]) == num as nat && LengthClass(r[0]) == exp % 8
    ensures exp < 8 ==> InfoFramed(r, num)
  {
    var body := [Header(InfoFormat, exp, num), id] + payload;
    var r := AddChecksum(body);
    assert r[..|body|] == body;
    r
  }

  /** The bytes a sequence of writes puts on the wire. */
  function Flatten(msgs: seq<seq<byte>>): seq<byte>
  {
    if |msgs| == 0 then [] else msgs[0] + Flatten(msgs[1..])
  }

  /** A receiver cutting a byte stream into messages by their headers. */
  function Split(stream: seq<byte>): Option<seq<seq<byte>>>
    decreases |stream|
  {
    if |stream| == 0 then Some([])
    else
      var n := AnnouncedLength(stream[0]);
      if |stream| < n then None
      else
        match Split(stream[n..])
        case None => None
        case Some(rest) => Some([stream[..n]] + rest)
  }

  /** Messages that announce their own lengths are recovered, in order, from their concatenation. */
  lemma {:induction false} SplitFlatten(msgs: seq<seq<byte>>)
    requires forall i :: 0 <= i < |msgs| ==> |msgs[i]| >= 1 && |msgs[i]| == AnnouncedLength(msgs[i][0])
    ensures Split(Flatten(msgs)) == Some(msgs)
  {
    if |msgs| > 0 {
      var s := Flatten(msgs);
      var n := |msgs[0]|;
      assert s[0] == msgs[0][0];
      assert s[..n] == msgs[0];
      assert s[n..] == Flatten(msgs[1..]);
      SplitFlatten(msgs[1..]);
      assert [msgs[0]] + msgs[1..] == msgs;
    }
  }
}
