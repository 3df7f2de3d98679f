/**
 * xml_buffered_writer: bytes are collected in a buffer of 2048 and delivered in converted chunks. The
 * chunks are cut so that, for every text, delivering them gives what converting the whole text gives.
 */
module BufferedWriter {
  import opened Chars
  import opened Utf

  const CAPACITY: nat := 2048
  const SCRATCH: nat := 4 * CAPACITY

  /** The encodings left after get_write_encoding; UTF-8 is the native one. */
  datatype Encoding = EncodingUtf8 | EncodingUtf16(bigEndian: bool) | EncodingUtf32(bigEndian: bool)

  function Bytes16(u: unit16, bigEndian: bool): (r: seq<byte>)
    ensures |r| == 2
  {
    if bigEndian then [u / 0x100, u % 0x100] else [u % 0x100, u / 0x100]
  }

  function Bytes32(u: unit32, bigEndian: bool): (r: seq<byte>)
    ensures |r| == 4
  {
    var b := [u / 0x100_0000, u / 0x1_0000 % 0x100, u / 0x100 % 0x100, u % 0x100];
    if bigEndian then b else [b[3], b[2], b[1], b[0]]
  }

  function Bytes16Of(us: seq<unit16>, bigEndian: bool): (r: seq<byte>)
    ensures |r| == 2 * |us|
  {
    if us == [] then [] else Bytes16(us[0], bigEndian) + Bytes16Of(us[1..], bigEndian)
  }

  function Bytes32Of(us: seq<unit32>, bigEndian: bool): (r: seq<byte>)
    ensures |r| == 4 * |us|
  {
    if us == [] then [] else Bytes32(us[0], bigEndian) + Bytes32Of(us[1..], bigEndian)
  }

  /** What one call to convert_buffer makes of a chunk: the calls of the decoder, written out. */
  function Encode(calls: seq<Call>, enc: Encoding): (r: seq<byte>)
    requires !enc.EncodingUtf8?
  {
    match enc
    case EncodingUtf16(big) => Bytes16Of(Units16(calls), big)
    case EncodingUtf32(big) => Bytes32Of(Units32(calls), big)
  }

  /** The bytes delivered for a chunk. */
  function Delivered(d: seq<byte>, enc: Encoding): seq<byte> {
    if enc.EncodingUtf8? then d else Encode(Decode8(d), enc)
  }

  lemma {:induction false} Bytes16Concat(a: seq<unit16>, b: seq<unit16>, big: bool)
    ensures Bytes16Of(a + b, big) == Bytes16Of(a, big) + Bytes16Of(b, big)
  {
    if a == [] {
      assert a + b == b;
    } else {
      assert (a + b)[1..] == a[1..] + b;
      Bytes16Concat(a[1..], b, big);
    }
  }

  lemma {:induction false} Bytes32Concat(a: seq<unit32>, b: seq<unit32>, big: bool)
    ensures Bytes32Of(a + b, big) == Bytes32Of(a, big) + Bytes32Of(b, big)
  {
    if a == [] {
      assert a + b == b;
    } else {
      assert (a + b)[1..] == a[1..] + b;
      Bytes32Concat(a[1..], b, big);
    }
  }

  lemma EncodeConcat(a: seq<Call>, b: seq<Call>, enc: Encoding)
    requires !enc.EncodingUtf8?
    ensures Encode(a + b, enc) == Encode(a, enc) + Encode(b, enc)
  {
    match enc
    case EncodingUtf16(big) =>
      FlattenConcat(Utf16Of, a, b);
      Bytes16Concat(Units16(a), Units16(b), big);
    case EncodingUtf32(big) =>
      FlattenConcat(Utf32Of, a, b);
      Bytes32Concat(Units32(a), Units32(b), big);
  }

  lemma {:induction false} UnitsAtLeast(calls: seq<Call>)
    ensures |Units32(calls)| == |calls| && |calls| <= |Units16(calls)| <= 2 * |calls|
  {
    if calls != [] {
      UnitsAtLeast(calls[1..]);
    }
  }

  // ---------- Where a byte string may be cut ----------

  /** The length of the sequence a lead byte announces. */
  function Announced(lead: byte): nat {
    if 0xC0 <= lead < 0xE0 then 2 else if 0xE0 <= lead < 0xF0 then 3 else if 0xF0 <= lead < 0xF8 then 4 else 1
  }

  predicate Tails(d: seq<byte>, from: nat, to: nat) {
    to <= |d| && forall i :: from <= i < to ==> IsTail(d[i])
  }

  /** A complete sequence starts k bytes before the cut and ends behind it. */
  predicate Crosses(a: seq<byte>, b: seq<byte>, k: nat) {
    1 <= k <= |a| && k < Announced(a[|a| - k]) <= k + |b| &&
    Tails(a, |a| - k + 1, |a|) && Tails(b, 0, Announced(a[|a| - k]) - k)
  }

  predicate Straddles(a: seq<byte>, b: seq<byte>) {
    Crosses(a, b, 1) || Crosses(a, b, 2) || Crosses(a, b, 3)
  }

  lemma WidthIs(d: seq<byte>)
    requires d != []
    ensures Width8(d) == if Announced(d[0]) <= |d| && Tails(d, 1, Announced(d[0])) then Announced(d[0]) else 1
    ensures Width8(d) > 1 ==> |Front8(d)| == 1
  {
  }

  /** One element between x and y. */
  predicate LosesOne<T(==)>(whole: seq<T>, x: seq<T>, y: seq<T>) {
    |whole| == |x| + 1 + |y| && whole[..|x|] == x && whole[|x| + 1..] == y
  }

  /**
   * Splitting at a place that no sequence straddles commutes with decoding; a straddled split loses
   * exactly one call. Holds for every byte string, malformed ones included.
   */
  lemma {:induction false} SplitDecode(a: seq<byte>, b: seq<byte>)
    ensures !Straddles(a, b) ==> Decode8(a + b) == Decode8(a) + Decode8(b)
    ensures Straddles(a, b) ==> LosesOne(Decode8(a + b), Decode8(a), Decode8(b))
    decreases |a|
  {
    if a == [] {
      assert a + b == b;
    } else {
      var d := a + b;
      WidthIs(d);
      WidthIs(a);
      var n := Width8(d);
      if n <= |a| {
        assert d[n..] == a[n..] + b;
        SameFront(a, b);
        SplitDecode(a[n..], b);
        StraddlesTail(a, b, n);
        Prefixed(Front8(d), Decode8(a[n..] + b), Decode8(a[n..]), Decode8(b));
      } else {
        SplitInside(a, b);
      }
    }
  }

  lemma Prefixed<T>(front: seq<T>, x: seq<T>, y: seq<T>, z: seq<T>)
    ensures x == y + z ==> front + x == front + y + z
    ensures LosesOne(x, y, z) ==> LosesOne(front + x, front + y, z)
  {
    if LosesOne(x, y, z) {
      assert (front + x)[..|front + y|] == front + x[..|y|];
      assert (front + x)[|front + y| + 1..] == x[|y| + 1..];
    }
  }

  lemma SameFront(a: seq<byte>, b: seq<byte>)
    requires a != [] && Width8(a + b) <= |a|
    ensures Width8(a) == Width8(a + b) && Front8(a) == Front8(a + b)
  {
    assert forall i :: 0 <= i < |a| ==> (a + b)[i] == a[i];
  }

  /** Dropping a whole step from the front does not change what happens at the cut. */
  lemma StraddlesTail(a: seq<byte>, b: seq<byte>, n: nat)
    requires a != [] && 1 <= n <= |a| && n == Width8(a)
    requires n == 1 ==>
      !(Announced(a[0]) > |a| && Tails(a, 1, |a|) && Announced(a[0]) <= |a| + |b| && Tails(b, 0, Announced(a[0]) - |a|))
    ensures Straddles(a, b) <==> Straddles(a[n..], b)
  {
    forall k | 1 <= k <= 3
      ensures Crosses(a, b, k) <==> Crosses(a[n..], b, k)
    {
      if k <= |a| - n {
        assert a[n..][|a| - n - k] == a[|a| - k];
        assert forall i :: |a| - k < i < |a| ==> a[n..][i - n] == a[i];
      } else if k <= |a| {
        var lead := a[|a| - k];
        assert |a| - k > 0 ==> IsTail(lead);
      }
    }
  }

  lemma {:induction false} AllTailsDecode(d: seq<byte>)
    requires Tails(d, 0, |d|)
    ensures Decode8(d) == []
  {
    if d != [] {
      AllTailsDecode(d[1..]);
    }
  }

  lemma {:induction false} TailsThen(d: seq<byte>, n: nat)
    requires n <= |d| && Tails(d, 0, n)
    ensures Decode8(d) == Decode8(d[n..])
  {
    if n == 0 {
      assert d[0..] == d;
    } else {
      TailsThen(d[1..], n - 1);
      assert d[1..][n - 1..] == d[n..];
    }
  }

  lemma InsideCrosses(a: seq<byte>, b: seq<byte>)
    requires a != [] && Width8(a + b) > |a|
    ensures Crosses(a, b, |a|) && |a| <= 3 && |Front8(a + b)| == 1
    ensures Width8(a) == 1 && Front8(a) == [] && Tails(a, 1, |a|)
    ensures Width8(a + b) - |a| <= |b| && Tails(b, 0, Width8(a + b) - |a|)
  {
    hide Width8, Front8;
    var d := a + b;
    WidthIs(d);
    WidthIs(a);
    assert forall i :: 0 <= i < |a| ==> d[i] == a[i];
    assert forall i :: 0 <= i < |b| ==> b[i] == d[|a| + i];
    LeadAlone(a);
  }

  lemma LeadAlone(a: seq<byte>)
    requires a != [] && a[0] >= 0x80 && Width8(a) == 1
    ensures Front8(a) == []
  {
  }

  lemma TailsDrop(a: seq<byte>)
    requires a != [] && Tails(a, 1, |a|)
    ensures Tails(a[1..], 0, |a| - 1)
  {
  }

  /** The first step of a + b ends inside b. */
  lemma SplitInside(a: seq<byte>, b: seq<byte>)
    requires a != [] && Width8(a + b) > |a|
    ensures LosesOne(Decode8(a + b), Decode8(a), Decode8(b))
    ensures Straddles(a, b)
  {
    hide Width8, Front8, Crosses, Tails;
    var d := a + b;
    var n, k := Width8(d), |a|;
    InsideCrosses(a, b);
    var rest := a[1..];
    assert Tails(rest, 0, |rest|) by { TailsDrop(a); }
    AllTailsDecode(rest);
    TailsThen(b, n - k);
    assert d[n..] == b[n - k..];
    assert Decode8(a) == [];
    assert Decode8(d) == Front8(d) + Decode8(b);
  }

  /** A chunk may be delivered on its own exactly when no sequence crosses its end. */
  lemma SplitDelivered(a: seq<byte>, b: seq<byte>, enc: Encoding)
    ensures Delivered(a + b, enc) == Delivered(a, enc) + Delivered(b, enc) <==> enc.EncodingUtf8? || !Straddles(a, b)
    ensures Delivered(a + b, enc) == Delivered(a, enc) + Delivered(b, enc)
         || |Delivered(a, enc)| + |Delivered(b, enc)| < |Delivered(a + b, enc)|
  {
    if !enc.EncodingUtf8? {
      SplitDecode(a, b);
      var x, y, whole := Decode8(a), Decode8(b), Decode8(a + b);
      EncodeConcat(x, y, enc);
      if Straddles(a, b) {
        var c := whole[|x|];
        assert whole == x + ([c] + y);
        EncodeConcat(x, [c] + y, enc);
        EncodeConcat([c], y, enc);
        UnitsAtLeast([c]);
      }
    }
  }

  lemma DeliveredFits(d: seq<byte>, enc: Encoding)
    ensures |Delivered(d, enc)| <= 4 * |d|
  {
    if !enc.EncodingUtf8? {
      UnitsAtLeast(Decode8(d));
    }
  }

  function Join(pieces: seq<seq<byte>>): seq<byte> {
    if pieces == [] then [] else pieces[0] + Join(pieces[1..])
  }

  function DeliveredAll(pieces: seq<seq<byte>>, enc: Encoding): seq<byte> {
    if pieces == [] then [] else Delivered(pieces[0], enc) + DeliveredAll(pieces[1..], enc)
  }

  /** No sequence crosses from one piece into what follows it. */
  predicate Clean(pieces: seq<seq<byte>>) {
    pieces == [] || (!Straddles(pieces[0], Join(pieces[1..])) && Clean(pieces[1..]))
  }

  /**
   * Chunked delivery gives what one conversion of the whole gives exactly when no chunk boundary cuts a
   * sequence; otherwise something is lost.
   */
  lemma {:induction false} ChunkedIsWhole(pieces: seq<seq<byte>>, enc: Encoding)
    ensures |DeliveredAll(pieces, enc)| <= |Delivered(Join(pieces), enc)|
    ensures DeliveredAll(pieces, enc) == Delivered(Join(pieces), enc) <==> enc.EncodingUtf8? || Clean(pieces)
  {
    if pieces != [] {
      var p, rest := pieces[0], pieces[1..];
      ChunkedIsWhole(rest, enc);
      SplitDelivered(p, Join(rest), enc);
      var x, y, z, w := Delivered(p, enc), DeliveredAll(rest, enc), Delivered(Join(rest), enc),
          Delivered(p + Join(rest), enc);
      if |x + z| == |w| {
        assert (x + y)[|x|..] == y && (x + z)[|x|..] == z;
      }
    }
  }

  // ---------- The writer ----------

  /** The longest prefix of the buffer's size that cuts no sequence, whatever follows. */
  method GetValidLength(data: seq<byte>, length: nat) returns (n: nat)
    requires 4 < length <= |data|
    ensures length - 4 <= n <= length
    ensures n < |data| ==> !Straddles(data[..n], data[n..])
  {
    var i := 1;
    while i <= 4
      invariant 1 <= i <= 5 && forall j :: length - i < j < length ==> IsTail(data[j])
    {
      if !IsTail(data[length - i]) {
        n := length - i;
        assert data[n..][0] == data[n];
        return;
      }
      i := i + 1;
    }
    n := length;
    assert IsTail(data[..n][n - 1]) && IsTail(data[..n][n - 2]) && IsTail(data[..n][n - 3]);
  }

  lemma StraddlesPrefix(a: seq<byte>, b: seq<byte>, n: nat)
    requires n <= |b| && !Straddles(a, b)
    ensures !Straddles(a, b[..n])
  {
    forall k | 1 <= k <= 3
      ensures Crosses(a, b[..n], k) ==> Crosses(a, b, k)
    {
      assert forall i :: 0 <= i < n ==> b[..n][i] == b[i];
    }
  }

  lemma StraddlesSuffix(done: seq<byte>, a: seq<byte>, b: seq<byte>)
    requires !Straddles(done + a, b)
    ensures !Straddles(a, b)
  {
    forall k | 1 <= k <= 3
      ensures Crosses(a, b, k) ==> Crosses(done + a, b, k)
    {
      assert forall i :: 0 <= i < |a| ==> (done + a)[|done| + i] == a[i];
    }
  }

  /** A chunk makes progress, and a converted one fits the scratch area. */
  predicate Fits(piece: seq<byte>, enc: Encoding) {
    piece != [] && (enc.EncodingUtf8? || (|piece| <= CAPACITY && |Delivered(piece, enc)| <= SCRATCH))
  }

  predicate Fitting(pieces: seq<seq<byte>>, enc: Encoding) {
    forall i :: 0 <= i < |pieces| ==> Fits(pieces[i], enc)
  }

  class Writer {
    const buffer: array<byte>
    const encoding: Encoding
    var bufsize: nat
    /** Everything the underlying xml_writer was given. */
    var sink: seq<byte>
    /** Everything passed to the write calls, and the chunks delivered so far. */
    ghost var written: seq<byte>
    ghost var pieces: seq<seq<byte>>

    ghost predicate Valid()
      reads this, buffer
    {
      && buffer.Length == CAPACITY && bufsize <= CAPACITY
      && Join(pieces) + buffer[..bufsize] == written
      && DeliveredAll(pieces, encoding) == sink
      && Fitting(pieces, encoding)
    }

    /** What was delivered and what is still buffered make up the conversion of the whole. */
    ghost predicate Faithful()
      reads this, buffer
      requires buffer.Length == CAPACITY && bufsize <= CAPACITY
    {
      sink + Delivered(buffer[..bufsize], encoding) == Delivered(written, encoding)
    }

    constructor (enc: Encoding)
      ensures Valid() && Faithful() && fresh(buffer) && encoding == enc && written == [] && sink == []
    {
      buffer := new byte[CAPACITY];
      encoding := enc;
      bufsize, sink, written, pieces := 0, [], [], [];
    }

    /** Deliver one chunk; a converted chunk fits the scratch area. */
    method Deliver(data: seq<byte>)
      requires (|data| <= CAPACITY || encoding.EncodingUtf8?) && Fitting(pieces, encoding)
      modifies this`sink, this`pieces
      ensures Fitting(pieces, encoding)
      ensures data == [] ==> sink == old(sink) && pieces == old(pieces)
      ensures data != [] ==> sink == old(sink) + Delivered(data, encoding) && pieces == old(pieces) + [data]
    {
      if data == [] {
        return;
      }
      if encoding.EncodingUtf8? {
        sink := sink + data;
      } else {
        var scratch := ConvertBuffer(data, encoding);
        DeliveredFits(data, encoding);
        sink := sink + scratch;
      }
      pieces := pieces + [data];
    }

    /** flush() */
    method Flush()
      requires Valid()
      modifies this`sink, this`pieces, this`bufsize
      ensures Valid() && bufsize == 0
      ensures sink == old(sink) + Delivered(old(buffer[..bufsize]), encoding)
      ensures old(Faithful()) ==> Faithful()
    {
      hide Join, DeliveredAll, Delivered, Straddles, Fits;
      var data := buffer[..bufsize];
      ghost var before := pieces;
      PiecesAppend(before, data, encoding);
      DeliveredNothing(encoding);
      Deliver(data);
      bufsize := 0;
      assert buffer[..0] == [];
      assert sink + [] == sink;
    }

    /** write(data, length) */
    method Write(data: seq<byte>)
      requires Valid()
      modifies this, buffer
      ensures Valid() && written == old(written) + data
      ensures old(Faithful()) && !Straddles(old(written), data) ==> Faithful()
    {
      hide Join, DeliveredAll, Delivered, Straddles, Fits;
      var rest := data;
      if bufsize + |data| > CAPACITY {
        Flush();
        if |data| > CAPACITY {
          if encoding.EncodingUtf8? {
            WriteWhole(data);
            return;
          }
          rest := WriteChunks(data);
        }
      }
      Copy(rest);
      assert written == old(written) + data;
    }

    /** The fast path: a large native chunk goes to the underlying writer as it is. */
    method WriteWhole(data: seq<byte>)
      requires Valid() && bufsize == 0 && encoding.EncodingUtf8? && data != []
      modifies this
      ensures Valid() && written == old(written) + data
      ensures Faithful()
    {
      hide Join, DeliveredAll, Delivered, Straddles, Fits;
      PiecesAppend(pieces, data, encoding);
      Deliver(data);
      written := written + data;
      assert buffer[..bufsize] == [];
      Utf8Delivered(written);
      JoinedUtf8(pieces);
    }

    /** Deliver a large text in chunks that fit the scratch area; what is left fits the buffer. */
    method WriteChunks(data: seq<byte>) returns (rest: seq<byte>)
      requires Valid() && bufsize == 0 && |data| > CAPACITY && !encoding.EncodingUtf8?
      modifies this
      ensures Valid() && bufsize == 0 && |rest| <= CAPACITY && written + rest == old(written) + data
      ensures old(Faithful()) && !Straddles(old(written), data) ==> Faithful() && !Straddles(written, rest)
      ensures old(pieces) <= pieces
      ensures forall i :: |old(pieces)| <= i < |pieces| ==> CAPACITY - 4 <= |pieces[i]| <= CAPACITY
    {
      hide Join, DeliveredAll, Delivered, Straddles, Fits;
      rest := data;
      DeliveredNothing(encoding);
      assert buffer[..bufsize] == [];
      ghost var good := Faithful() && !Straddles(written, data);
      while |rest| > CAPACITY
        invariant Valid() && bufsize == 0 && written + rest == old(written) + data
        invariant good ==> Faithful() && !Straddles(written, rest)
        invariant old(pieces) <= pieces
        invariant forall i :: |old(pieces)| <= i < |pieces| ==> CAPACITY - 4 <= |pieces[i]| <= CAPACITY
        decreases |rest|
      {
        var n := GetValidLength(rest, CAPACITY);
        var chunk := rest[..n];
        ChunkFaithful(sink, written, chunk, rest[n..], encoding);
        PiecesAppend(pieces, chunk, encoding);
        Deliver(chunk);
        written := written + chunk;
        assert buffer[..bufsize] == [];
        DeliveredNothing(encoding);
        assert rest == chunk + rest[n..];
        rest := rest[n..];
      }
    }

    /** Append text that fits. */
    method Copy(data: seq<byte>)
      requires Valid() && bufsize + |data| <= CAPACITY
      modifies this, buffer
      ensures Valid() && written == old(written) + data && bufsize == old(bufsize) + |data|
      ensures sink == old(sink) && pieces == old(pieces)
      ensures old(Faithful()) && !Straddles(old(written), data) ==> Faithful()
    {
      hide Join, DeliveredAll, Delivered, Straddles, Fits;
      ghost var done, buf := Join(pieces), buffer[..bufsize];
      if Faithful() && !Straddles(written, data) {
        AppendFaithful(sink, done, buf, data, encoding);
      }
      Append(data);
      written := written + data;
      assert done + buf + data == done + (buf + data);
    }

    /** write(d0, ...) of a few bytes */
    method WriteFew(data: seq<byte>)
      requires Valid() && |data| <= 6
      modifies this, buffer
      ensures Valid() && written == old(written) + data
      ensures old(Faithful()) && !Straddles(old(written), data) ==> Faithful()
    {
      hide Join, DeliveredAll, Delivered, Straddles, Fits;
      if bufsize + |data| > CAPACITY {
        Flush();
      }
      Copy(data);
    }

    /** The destructor: afterwards everything has been delivered, whole when no chunk boundary cut a sequence. */
    method Close()
      requires Valid()
      modifies this`sink, this`pieces, this`bufsize
      ensures Valid() && bufsize == 0 && written == Join(pieces)
      ensures sink == Delivered(written, encoding) <==> encoding.EncodingUtf8? || Clean(pieces)
      ensures old(Faithful()) ==> sink == Delivered(written, encoding)
    {
      hide Join, DeliveredAll, Delivered, Straddles, Fits, Clean;
      Flush();
      DeliveredNothing(encoding);
      assert buffer[..bufsize] == [];
      assert Join(pieces) + [] == Join(pieces);
      ChunkedIsWhole(pieces, encoding);
    }

    /** memcpy to the end of the buffer */
    method Append(data: seq<byte>)
      requires buffer.Length == CAPACITY && bufsize + |data| <= CAPACITY
      modifies this`bufsize, buffer
      ensures bufsize == old(bufsize) + |data|
      ensures buffer[..bufsize] == old(buffer[..bufsize]) + data
    {
      var k := 0;
      while k < |data|
        invariant k <= |data| && bufsize == old(bufsize)
        invariant forall i :: 0 <= i < bufsize ==> buffer[i] == old(buffer[i])
        invariant forall i {:trigger buffer[i]} :: bufsize <= i < bufsize + k ==> buffer[i] == data[i - bufsize]
      {
        buffer[bufsize + k] := data[k];
        k := k + 1;
      }
      bufsize := bufsize + |data|;
    }
  }

  /** A clean append keeps a faithful writer faithful. */
  lemma AppendFaithful(sink: seq<byte>, done: seq<byte>, buf: seq<byte>, data: seq<byte>, enc: Encoding)
    requires sink + Delivered(buf, enc) == Delivered(done + buf, enc) && !Straddles(done + buf, data)
    ensures sink + Delivered(buf + data, enc) == Delivered(done + buf + data, enc)
  {
    hide Delivered, Straddles;
    StraddlesSuffix(done, buf, data);
    SplitDelivered(buf, data, enc);
    SplitDelivered(done + buf, data, enc);
    var x, y := Delivered(buf, enc), Delivered(data, enc);
    assert sink + (x + y) == (sink + x) + y;
  }

  /** One more chunk of a text that is cut cleanly. */
  lemma ChunkFaithful(sink: seq<byte>, done: seq<byte>, chunk: seq<byte>, rest: seq<byte>, enc: Encoding)
    requires rest != [] ==> !Straddles(chunk, rest)
    requires |chunk| >= 3
    ensures sink == Delivered(done, enc) && !Straddles(done, chunk + rest)
      ==> sink + Delivered(chunk, enc) == Delivered(done + chunk, enc) && !Straddles(done + chunk, rest)
  {
    if sink == Delivered(done, enc) && !Straddles(done, chunk + rest) {
      StraddlesPrefix(done, chunk + rest, |chunk|);
      assert (chunk + rest)[..|chunk|] == chunk;
      SplitDelivered(done, chunk, enc);
      StraddlesLocal(done, chunk, rest);
    }
  }

  /** Whether a cut is clean depends on the last three bytes before it. */
  lemma StraddlesLocal(done: seq<byte>, chunk: seq<byte>, rest: seq<byte>)
    requires |chunk| >= 3 && (rest != [] ==> !Straddles(chunk, rest))
    ensures !Straddles(done + chunk, rest)
  {
    forall k | 1 <= k <= 3
      ensures Crosses(done + chunk, rest, k) ==> Crosses(chunk, rest, k)
    {
      assert forall i :: 0 <= i < |chunk| ==> (done + chunk)[|done| + i] == chunk[i];
    }
  }

  lemma {:induction false} JoinedUtf8(pieces: seq<seq<byte>>)
    ensures DeliveredAll(pieces, EncodingUtf8) == Join(pieces)
  {
    if pieces != [] {
      JoinedUtf8(pieces[1..]);
    }
  }

  lemma Utf8Delivered(d: seq<byte>)
    ensures Delivered(d, EncodingUtf8) == d && Delivered([], EncodingUtf8) == []
  {
  }

  lemma DeliveredNothing(enc: Encoding)
    ensures Delivered([], enc) == []
  {
  }

  lemma {:induction false} PiecesAppend(pieces: seq<seq<byte>>, data: seq<byte>, enc: Encoding)
    ensures Join(pieces + [data]) == Join(pieces) + data
    ensures DeliveredAll(pieces + [data], enc) == DeliveredAll(pieces, enc) + Delivered(data, enc)
  {
    hide Delivered;
    if pieces == [] {
      assert pieces + [data] == [data] && [data][1..] == [];
    } else {
      assert (pieces + [data])[1..] == pieces[1..] + [data];
      PiecesAppend(pieces[1..], data, enc);
    }
  }

  /** convert_buffer: decode and write, then swap the bytes when the order is not the native one. */
  method ConvertBuffer(data: seq<byte>, enc: Encoding) returns (r: seq<byte>)
    requires !enc.EncodingUtf8?
    ensures r == Delivered(data, enc)
  {
    ghost var calls := Decode8(data);
    CounterMeasuresWriter(calls, 0, [], [], []);
    match enc {
      case EncodingUtf16(big) =>
        var units := DecodeUtf8Block(data, 0, Utf16Writer(), []);
        assert units == Units16(calls);
        r := Bytes16Of(units, big);
      case EncodingUtf32(big) =>
        var units := DecodeUtf8Block(data, 0, Utf32Writer(), []);
        assert units == Units32(calls);
        r := Bytes32Of(units, big);
    }
  }
}
