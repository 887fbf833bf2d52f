/**
 The LPF2 check byte: the complement of the XOR of every byte before it.
 Every handshake and mode-descriptor message ends with it.
 */
module Checksum {
  import opened Bytes

  /** What a receiver tests: the XOR over a whole message, check byte included, is 0xFF. */
  predicate Verifies(m: seq<byte>)
  {
    XorAll(m) == 0xFF
  }

  /** Appends the check byte to a message body. */
  function AddChecksum(body: seq<byte>): (m: seq<byte>)
    ensures |m| == |body| + 1
    ensures m[..|body|] == body
    ensures Verifies(m)
  {
    var m := body + [XorAll(body) ^ 0xFF];
    assert m[..|m| - 1] == body;
    m
  }

  /** The appended byte is the only one that makes the body verify. */
  lemma CheckByteUnique(body: seq<byte>, c: byte)
    ensures Verifies(body + [c]) <==> body + [c] == AddChecksum(body)
  {
    assert (body + [c])[..|body|] == body;
    var m := AddChecksum(body);
    assert m == body + [m[|body|]] by {
      assert m[..|body|] == body;
    }
  }

  /** Changing any single byte of a verifying message makes it fail to verify. */
  lemma {:induction false} SingleByteErrorDetected(m: seq<byte>, i: nat, b: byte)
    requires Verifies(m)
    requires i < |m| && b != m[i]
    ensures !Verifies(m[i := b])
  {
    var m' := m[i := b];
    assert m == m[..i] + [m[i]] + m[i + 1..];
    assert m' == m[..i] + [b] + m[i + 1..];
    XorAllConcat(m[..i] + [m[i]], m[i + 1..]);
    XorAllConcat(m[..i], [m[i]]);
    XorAllConcat(m[..i] + [b], m[i + 1..]);
    XorAllConcat(m[..i], [b]);
    assert XorAll([m[i]]) == m[i] by {
      assert [m[i]][..0] == [];
    }
    assert XorAll([b]) == b by {
      assert [b][..0] == [];
    }
  }
}
