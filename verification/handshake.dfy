/**
 The device-identity messages of the handshake: sensor type, proposed baud
 rate, hardware and software versions, and the mode and view counts
 (setType, defineBaud, defineVers, defineModes in uart/rp2/LPF2.py:67-77
 and 110-117). Each is a literal command byte, a fixed payload and the check
 byte.
 */
module Handshake {
  import opened Bytes
  import opened Checksum
  import opened Frames
  import opened ModeInfo

  /** The sensor-type message: 0x40, the type code, the check byte. */
  function SetType(sensorType: byte): (r: seq<byte>)
    ensures WellFramed(r) && |r| == 3
    ensures r[0] == CmdType && Kind(r[0]) == KindCmd && r[1] == sensorType
  {
    var r := AddChecksum([CmdType, sensorType]);
    assert r[..2] == [CmdType, sensorType];
    r
  }

  /** The speed message: 0x52, the rate as four little-endian bytes, the check byte. */
  function DefineBaud(baud: nat): (r: seq<byte>)
    requires baud < 0x1_0000_0000
    ensures WellFramed(r) && |r| == 6
    ensures r[0] == CmdSpeed && Kind(r[0]) == KindCmd
    ensures FromLE(r[1..5]) == baud
  {
    assert Pow256(4) == 0x1_0000_0000;
    var rate := ToLE(baud, 4);
    var r := AddChecksum([CmdSpeed] + rate);
    assert r[1..5] == rate;
    FromLEToLE(baud, 4);
    r
  }

  /** The version message: 0x5F, hardware then software version, each four big-endian bytes, the check byte. */
  function DefineVers(hardware: nat, software: nat): (r: seq<byte>)
    requires hardware < 0x1_0000_0000 && software < 0x1_0000_0000
    ensures WellFramed(r) && |r| == 10
    ensures r[0] == CmdVersion && Kind(r[0]) == KindCmd
    ensures FromBE(r[1..5]) == hardware && FromBE(r[5..9]) == software
  {
    assert Pow256(4) == 0x1_0000_0000;
    var hard := ToBE(hardware, 4);
    var soft := ToBE(software, 4);
    var r := AddChecksum([CmdVersion] + hard + soft);
    assert r[1..5] == hard && r[5..9] == soft;
    FromBEToBE(hardware, 4);
    FromBEToBE(software, 4);
    r
  }

  /** How many modes have a view (element 7 of the mode list truthy). */
  function CountViews(modes: seq<Mode>): nat
  {
    if |modes| == 0 then 0
    else CountViews(modes[..|modes| - 1]) + (if modes[|modes| - 1].hasView then 1 else 0)
  }

  /** The indices of the modes that have a view. */
  function ViewIndices(modes: seq<Mode>): set<nat>
  {
    set i: nat | i < |modes| && modes[i].hasView
  }

  /** CountViews counts exactly the modes that have a view. */
  lemma {:induction false} CountViewsIsSize(modes: seq<Mode>)
    ensures CountViews(modes) == |ViewIndices(modes)|
  {
    if |modes| > 0 {
      var n := |modes| - 1;
      var init := modes[..n];
      CountViewsIsSize(init);
      assert n !in ViewIndices(init);
      if modes[n].hasView {
        assert ViewIndices(modes) == ViewIndices(init) + {n};
      } else {
        assert ViewIndices(modes) == ViewIndices(init);
      }
    }
  }

  /**
   The mode-count message: 0x49, then the number of modes minus one and the
   number of viewed modes minus one, each taken modulo 256 (so an empty list
   or a list without views sends 0xFF), then the check byte.
   */
  function DefineModes(modes: seq<Mode>): (r: seq<byte>)
    ensures WellFramed(r) && |r| == 4
    ensures r[0] == CmdModeCount && Kind(r[0]) == KindCmd
    ensures r[1] as int == (|modes| - 1) % 256
    ensures r[2] as int == (CountViews(modes) - 1) % 256
  {
    var count := LowByte(|modes| - 1);
    var views := LowByte(CountViews(modes) - 1);
    assert count as int == (|modes| - 1) % 256 by {
      LowByteIsResidue(|modes| - 1, count);
    }
    assert views as int == (CountViews(modes) - 1) % 256 by {
      LowByteIsResidue(CountViews(modes) - 1, views);
    }
    var body := [CmdModeCount, count, views];
    var r := AddChecksum(body);
    assert r[..3] == body;
    r
  }

  /** A count minus one is 255 modulo 256 exactly when the count is a multiple of 256. */
  lemma PredecessorWraps(k: nat)
    ensures (k - 1) % 256 == 255 <==> k % 256 == 0
  {
    var q := k / 256;
    var r := k % 256;
    assert k == 256 * q + r;
    if r == 0 {
      assert k - 1 == 256 * (q - 1) + 255;
    } else {
      assert k - 1 == 256 * q + (r - 1);
    }
  }

  lemma AllOnes(b: byte)
    ensures b == 0xFF <==> b as int == 255
  {
    OctetRoundTrip(255);
    ByteAsIntRoundTrip(b);
  }

  /** The counts wrap: 0xFF in either field means a multiple of 256 modes (or views), none included. */
  lemma DefineModesWraps(modes: seq<Mode>)
    ensures DefineModes(modes)[1] == 0xFF <==> |modes| % 256 == 0
    ensures DefineModes(modes)[2] == 0xFF <==> |ViewIndices(modes)| % 256 == 0
  {
    CountViewsIsSize(modes);
    var r := DefineModes(modes);
    PredecessorWraps(|modes|);
    PredecessorWraps(CountViews(modes));
    AllOnes(r[1]);
    AllOnes(r[2]);
  }
}
