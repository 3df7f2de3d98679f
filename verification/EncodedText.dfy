/** The bytes delivered in UTF-16 and UTF-32, read back in the byte order they were written in. */
module EncodedText {
  import opened Chars
  import opened Utf
  import opened BufferedWriter

  /** Two bytes, the first of higher value when the order is big-endian. */
  function Read16(d: seq<byte>, bigEndian: bool): (us: seq<unit16>)
    decreases |d|
  {
    if |d| < 2 then []
    else [if bigEndian then 0x100 * d[0] as int + d[1] else 0x100 * d[1] as int + d[0]] + Read16(d[2..], bigEndian)
  }

  function Read32(d: seq<byte>, bigEndian: bool): (us: seq<unit32>)
    decreases |d|
  {
    if |d| < 4 then []
    else
      var u: unit32 := if bigEndian then 0x100 * (0x100 * (0x100 * d[0] as int + d[1]) + d[2]) + d[3]
                       else 0x100 * (0x100 * (0x100 * d[3] as int + d[2]) + d[1]) + d[0];
      [u] + Read32(d[4..], bigEndian)
  }

  lemma {:induction false} Bytes16Back(us: seq<unit16>, big: bool)
    ensures Read16(Bytes16Of(us, big), big) == us
  {
    if us != [] {
      Bytes16Back(us[1..], big);
      var d := Bytes16Of(us, big);
      assert d[2..] == Bytes16Of(us[1..], big);
      assert d[0] == Bytes16(us[0], big)[0] && d[1] == Bytes16(us[0], big)[1];
    }
  }

  lemma FourBytes(u: unit32)
    ensures 0x100 * (0x100 * (0x100 * (u / 0x100_0000) + u / 0x1_0000 % 0x100) + u / 0x100 % 0x100) + u % 0x100 == u
  {
    var a, b := u / 0x100, u / 0x1_0000;
    assert u == 0x100 * a + u % 0x100 && a / 0x100 == b;
    assert a == 0x100 * b + a % 0x100 && b / 0x100 == u / 0x100_0000;
    assert b == 0x100 * (b / 0x100) + b % 0x100;
  }

  lemma {:induction false} Bytes32Back(us: seq<unit32>, big: bool)
    ensures Read32(Bytes32Of(us, big), big) == us
  {
    if us != [] {
      Bytes32Back(us[1..], big);
      FourBytes(us[0]);
      var d, b := Bytes32Of(us, big), Bytes32(us[0], big);
      assert d[4..] == Bytes32Of(us[1..], big);
      assert d[0] == b[0] && d[1] == b[1] && d[2] == b[2] && d[3] == b[3];
    }
  }

  /** A text of scalar values delivered in UTF-16, in either byte order, reads back as the same text. */
  lemma Delivered16(d: seq<byte>, big: bool)
    requires ScalarCalls(Decode8(d))
    ensures Decode16(Read16(Delivered(d, EncodingUtf16(big)), big)) == Decode8(d)
  {
    hide Decode8, Decode16, ScalarCalls, Units16;
    Bytes16Back(Units16(Decode8(d)), big);
    Utf16EncodeDecode(Decode8(d));
  }

  function CodePoint(c: Call): unit32 {
    match c case Low(ch) => ch case High(ch) => ch
  }

  function CodePoints(calls: seq<Call>): (r: seq<unit32>)
    ensures |r| == |calls| && forall i :: 0 <= i < |r| ==> r[i] == CodePoint(calls[i])
  {
    seq(|calls|, i requires 0 <= i < |calls| => CodePoint(calls[i]))
  }

  /** Delivered in UTF-32, it reads back as its code points. */
  lemma Delivered32(d: seq<byte>, big: bool)
    ensures Read32(Delivered(d, EncodingUtf32(big)), big) == CodePoints(Decode8(d))
  {
    hide Decode8, Units32, CodePoints;
    Bytes32Back(Units32(Decode8(d)), big);
    UnitsAreCodePoints(Decode8(d));
  }

  lemma {:induction false} UnitsAreCodePoints(calls: seq<Call>)
    ensures Units32(calls) == CodePoints(calls)
  {
    if calls != [] {
      UnitsAreCodePoints(calls[1..]);
      assert Units32(calls) == Utf32Of(calls[0]) + Units32(calls[1..]);
    }
  }

  // ---------- What is no text ----------

  /** A byte that starts no complete sequence is passed over. */
  lemma MalformedPassed(d: seq<byte>)
    requires d != [] && d[0] >= 0x80 && (Announced(d[0]) == 1 || Announced(d[0]) > |d| || !Tails(d, 1, Announced(d[0])))
    ensures Decode8(d) == Decode8(d[1..])
  {
    WidthIs(d);
  }

  /** A surrogate without its partner is passed over. */
  lemma UnpairedPassed(d: seq<unit16>)
    requires d != []
    requires (0xDC00 <= d[0] < 0xE000) || (0xD800 <= d[0] < 0xDC00 && (|d| == 1 || !(0xDC00 <= d[1] < 0xE000)))
    ensures Decode16(d) == Decode16(d[1..])
  {
  }

  /** A complete sequence is one call with the bits of its bytes, whatever follows; an ASCII byte is itself. */
  lemma SequenceRead(d: seq<byte>)
    requires d != [] && (d[0] < 0x80 || (Announced(d[0]) > 1 && Announced(d[0]) <= |d| && Tails(d, 1, Announced(d[0]))))
    ensures d[0] < 0x80 ==> Decode8(d) == [Low(d[0])] + Decode8(d[1..])
    ensures Announced(d[0]) == 2 ==> Decode8(d) == [Low(Code2(d[0], d[1]))] + Decode8(d[2..])
    ensures Announced(d[0]) == 3 ==> Decode8(d) == [Low(Code3(d[0], d[1], d[2]))] + Decode8(d[3..])
    ensures Announced(d[0]) == 4 ==> Decode8(d) == [High(Code4(d[0], d[1], d[2], d[3]))] + Decode8(d[4..])
  {
    hide Code2, Code3, Code4;
    WidthIs(d);
  }
}
