/** Unsigned big-endian numbers of any length. */
module BigEndian {
  import opened Bytes

  type Word = n: int | 0 <= n < 0x1_0000 witness 0

  function Value(bs: ByteString): nat {
    if bs == [] then 0 else 0x100 * Value(bs[..|bs| - 1]) + bs[|bs| - 1]
  }

  /** Without its leading zero bytes. */
  function Strip(bs: ByteString): ByteString {
    if bs != [] && bs[0] == 0 then Strip(bs[1..]) else bs
  }

  function U16(n: Word): (bs: ByteString)
    ensures |bs| == 2
  {
    [n / 0x100, n % 0x100]
  }

  lemma ValueOfByte(b: Byte)
    ensures Value([b]) == b
  {
    assert Value([b][..0]) == 0;
  }

  lemma ValueOfU16(n: Word)
    ensures Value(U16(n)) == n
  {
    assert U16(n)[..1] == [n / 0x100];
    ValueOfByte(n / 0x100);
  }

  lemma {:induction false} LeadingZero(bs: ByteString)
    ensures Value([0] + bs) == Value(bs)
  {
    if bs == [] {
    } else {
      assert ([0] + bs)[..|bs|] == [0] + bs[..|bs| - 1];
      LeadingZero(bs[..|bs| - 1]);
    }
  }

  lemma {:induction false} StripFacts(bs: ByteString)
    ensures Value(Strip(bs)) == Value(bs)
    ensures |Strip(bs)| <= |bs| && Strip(bs) == bs[|bs| - |Strip(bs)|..]
    ensures forall k :: 0 <= k < |bs| - |Strip(bs)| ==> bs[k] == 0
    ensures Strip(bs) == [] || Strip(bs)[0] != 0
  {
    if bs != [] && bs[0] == 0 {
      StripFacts(bs[1..]);
      assert bs == [0] + bs[1..];
      LeadingZero(bs[1..]);
    }
  }

  lemma {:induction false} PositiveWhenStripped(bs: ByteString)
    requires bs != [] && bs[0] != 0
    ensures Value(bs) > 0
  {
    if |bs| > 1 {
      PositiveWhenStripped(bs[..|bs| - 1]);
    }
  }

  /** A number has one representation without leading zeros. */
  lemma {:induction false} StrippedIsUnique(a: ByteString, b: ByteString)
    requires a == [] || a[0] != 0
    requires b == [] || b[0] != 0
    requires Value(a) == Value(b)
    ensures a == b
  {
    if a == [] {
      if b != [] { PositiveWhenStripped(b); }
    } else if b == [] {
      PositiveWhenStripped(a);
    } else {
      var a', b' := a[..|a| - 1], b[..|b| - 1];
      assert Value(a') == Value(b') && a[|a| - 1] == b[|b| - 1];
      StrippedIsUnique(a', b');
      assert a == a' + [a[|a| - 1]] && b == b' + [b[|b| - 1]];
    }
  }
}
