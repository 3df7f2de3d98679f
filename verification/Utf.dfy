/**
 * The UTF decoders, counters and writers: a decoder walks its input and calls low or high of its
 * traits; a traits type either counts units or appends them.
 */
module Utf {
  import opened Chars

  type unit16 = u: int | 0 <= u < 0x1_0000
  type unit32 = u: int | 0 <= u < 0x1_0000_0000

  /** One call a decoder makes on its traits. */
  datatype Call = Low(lo: unit16) | High(hi: unit32)

  /** A traits type: what low and high do to the running result. */
  datatype Traits<!T> = Traits(low: (T, unit16) -> T, high: (T, unit32) -> T)

  function Fold<T>(traits: Traits<T>, calls: seq<Call>, result: T): T {
    if calls == [] then result
    else
      var next := match calls[0] case Low(ch) => traits.low(result, ch) case High(ch) => traits.high(result, ch);
      Fold(traits, calls[1..], next)
  }

  lemma {:induction false} FoldConcat<T>(traits: Traits<T>, a: seq<Call>, b: seq<Call>, result: T)
    ensures Fold(traits, a + b, result) == Fold(traits, b, Fold(traits, a, result))
  {
    if a == [] {
      assert a + b == b;
    } else {
      assert (a + b)[1..] == a[1..] + b;
      var next := match a[0] case Low(ch) => traits.low(result, ch) case High(ch) => traits.high(result, ch);
      FoldConcat(traits, a[1..], b, next);
    }
  }

  // ---------- Units written for one call ----------

  function Utf8Low(ch: unit16): (r: seq<byte>) {
    if ch < 0x80 then [ch]
    else if ch < 0x800 then [0xC0 + ch / 0x40, 0x80 + ch % 0x40]
    else [0xE0 + ch / 0x1000, 0x80 + ch / 0x40 % 0x40, 0x80 + ch % 0x40]
  }

  /** The lead byte keeps only the bits that 0xF0 | (ch >> 18) leaves in a byte. */
  function Utf8High(ch: unit32): (r: seq<byte>) {
    [0xF0 + ch / 0x4_0000 % 0x10, 0x80 + ch / 0x1000 % 0x40, 0x80 + ch / 0x40 % 0x40, 0x80 + ch % 0x40]
  }

  function Utf8Any(ch: unit32): (r: seq<byte>)
    ensures 1 <= |r| <= 4
  {
    if ch < 0x1_0000 then Utf8Low(ch) else Utf8High(ch)
  }

  function Utf16High(ch: unit32): (r: seq<unit16>) {
    var rest := (ch - 0x1_0000) % 0x1_0000_0000;
    [(0xD800 + rest / 0x400) % 0x1_0000, 0xDC00 + rest % 0x400]
  }

  function Utf8Of(call: Call): (r: seq<byte>) {
    match call case Low(ch) => Utf8Low(ch) case High(ch) => Utf8High(ch)
  }

  function Utf16Of(call: Call): (r: seq<unit16>) {
    match call case Low(ch) => [ch] case High(ch) => Utf16High(ch)
  }

  function Utf32Of(call: Call): (r: seq<unit32>) {
    match call case Low(ch) => [ch] case High(ch) => [ch]
  }

  function Flatten<T>(f: Call -> seq<T>, calls: seq<Call>): seq<T> {
    if calls == [] then [] else f(calls[0]) + Flatten(f, calls[1..])
  }

  lemma {:induction false} FlattenConcat<T>(f: Call -> seq<T>, a: seq<Call>, b: seq<Call>)
    ensures Flatten(f, a + b) == Flatten(f, a) + Flatten(f, b)
  {
    if a == [] {
      assert a + b == b;
    } else {
      assert (a + b)[1..] == a[1..] + b;
      FlattenConcat(f, a[1..], b);
    }
  }

  function Units8(calls: seq<Call>): seq<byte> { Flatten(Utf8Of, calls) }
  function Units16(calls: seq<Call>): seq<unit16> { Flatten(Utf16Of, calls) }
  function Units32(calls: seq<Call>): seq<unit32> { Flatten(Utf32Of, calls) }

  // ---------- Traits ----------

  function Utf8Counter(): Traits<int> {
    Traits((n: int, ch: unit16) => if ch < 0x80 then n + 1 else if ch < 0x800 then n + 2 else n + 3,
           (n: int, ch: unit32) => n + 4)
  }

  function Utf16Counter(): Traits<int> {
    Traits((n: int, ch: unit16) => n + 1, (n: int, ch: unit32) => n + 2)
  }

  function Utf32Counter(): Traits<int> {
    Traits((n: int, ch: unit16) => n + 1, (n: int, ch: unit32) => n + 1)
  }

  function Utf8Writer(): Traits<seq<byte>> {
    Traits((r: seq<byte>, ch: unit16) => r + Utf8Low(ch), (r: seq<byte>, ch: unit32) => r + Utf8High(ch))
  }

  function Utf16Writer(): Traits<seq<unit16>> {
    Traits((r: seq<unit16>, ch: unit16) => r + [ch], (r: seq<unit16>, ch: unit32) => r + Utf16High(ch))
  }

  function Utf32Writer(): Traits<seq<unit32>> {
    Traits((r: seq<unit32>, ch: unit16) => r + Utf32Of(Low(ch)), (r: seq<unit32>, ch: unit32) => r + Utf32Of(High(ch)))
  }

  /** The first pass of a conversion measures exactly what the second pass writes. */
  lemma {:induction false} CounterMeasuresWriter(calls: seq<Call>, n: int, r8: seq<byte>, r16: seq<unit16>,
      r32: seq<unit32>)
    ensures Fold(Utf8Writer(), calls, r8) == r8 + Units8(calls)
    ensures Fold(Utf16Writer(), calls, r16) == r16 + Units16(calls)
    ensures Fold(Utf32Writer(), calls, r32) == r32 + Units32(calls)
    ensures Fold(Utf8Counter(), calls, n) == n + |Units8(calls)|
    ensures Fold(Utf16Counter(), calls, n) == n + |Units16(calls)|
    ensures Fold(Utf32Counter(), calls, n) == n + |Units32(calls)|
  {
    WriterAppends(Utf8Writer(), Utf8Of, calls, r8);
    WriterAppends(Utf16Writer(), Utf16Of, calls, r16);
    WriterAppends(Utf32Writer(), Utf32Of, calls, r32);
    CounterAdds(Utf8Counter(), Utf8Of, calls, n);
    CounterAdds(Utf16Counter(), Utf16Of, calls, n);
    CounterAdds(Utf32Counter(), Utf32Of, calls, n);
  }

  function OneStep<T>(traits: Traits<T>, call: Call, result: T): T {
    match call case Low(ch) => traits.low(result, ch) case High(ch) => traits.high(result, ch)
  }

  lemma {:induction false} WriterAppends<T>(traits: Traits<seq<T>>, units: Call -> seq<T>, calls: seq<Call>, r: seq<T>)
    requires forall c: Call, s: seq<T> :: OneStep(traits, c, s) == s + units(c)
    ensures Fold(traits, calls, r) == r + Flatten(units, calls)
  {
    if calls != [] {
      var c, rest := calls[0], calls[1..];
      WriterAppends(traits, units, rest, OneStep(traits, c, r));
      assert r + units(c) + Flatten(units, rest) == r + Flatten(units, calls);
    }
  }

  lemma {:induction false} CounterAdds<T>(traits: Traits<int>, units: Call -> seq<T>, calls: seq<Call>, n: int)
    requires forall c: Call, k: int :: OneStep(traits, c, k) == k + |units(c)|
    ensures Fold(traits, calls, n) == n + |Flatten(units, calls)|
  {
    if calls != [] {
      CounterAdds(traits, units, calls[1..], OneStep(traits, calls[0], n));
    }
  }

  // ---------- The UTF-8 decoder ----------

  predicate IsTail(c: byte) { 0x80 <= c < 0xC0 }

  /** The payload bits of a two, three and four byte sequence, high bits first. */
  function Code2(a: byte, b: byte): (ch: unit16)
    requires 0xC0 <= a < 0xE0 && IsTail(b)
    ensures ch < 0x800 && ch / 0x40 == a as int - 0xC0 && ch % 0x40 == b as int - 0x80
  {
    (a as int - 0xC0) * 0x40 + (b as int - 0x80)
  }

  function Code3(a: byte, b: byte, c: byte): (ch: unit16)
    requires 0xE0 <= a < 0xF0 && IsTail(b) && IsTail(c)
    ensures ch / 0x1000 == a as int - 0xE0 && ch / 0x40 % 0x40 == b as int - 0x80 && ch % 0x40 == c as int - 0x80
  {
    (a as int - 0xE0) * 0x1000 + (b as int - 0x80) * 0x40 + (c as int - 0x80)
  }

  function Code4(a: byte, b: byte, c: byte, d: byte): (ch: unit32)
    requires 0xF0 <= a < 0xF8 && IsTail(b) && IsTail(c) && IsTail(d)
    ensures ch < 0x20_0000 && ch / 0x4_0000 == a as int - 0xF0
    ensures ch / 0x1000 % 0x40 == b as int - 0x80 && ch / 0x40 % 0x40 == c as int - 0x80 && ch % 0x40 == d as int - 0x80
  {
    var high := (a as int - 0xF0) * 0x40 + (b as int - 0x80);
    var middle := high * 0x40 + (c as int - 0x80);
    var ch := middle * 0x40 + (d as int - 0x80);
    assert ch / 0x40 == middle && middle / 0x40 == high && ch / 0x1000 == high && high / 0x40 == a as int - 0xF0;
    ch
  }

  /** Bytes consumed at the front of d: a complete sequence, or one byte. */
  function Width8(d: seq<byte>): (n: nat)
    requires d != []
    ensures 1 <= n <= 4 && n <= |d|
    ensures forall i :: 1 <= i < n ==> IsTail(d[i])
  {
    if 0xC0 <= d[0] < 0xE0 && |d| >= 2 && IsTail(d[1]) then 2
    else if 0xE0 <= d[0] < 0xF0 && |d| >= 3 && IsTail(d[1]) && IsTail(d[2]) then 3
    else if 0xF0 <= d[0] < 0xF8 && |d| >= 4 && IsTail(d[1]) && IsTail(d[2]) && IsTail(d[3]) then 4
    else 1
  }

  /** The call made for the bytes at the front of d; none for a byte that starts no sequence. */
  function Front8(d: seq<byte>): (calls: seq<Call>)
    requires d != []
    ensures |calls| <= 1
  {
    if d[0] < 0x80 then [Low(d[0])]
    else match Width8(d)
      case 2 => [Low(Code2(d[0], d[1]))]
      case 3 => [Low(Code3(d[0], d[1], d[2]))]
      case 4 => [High(Code4(d[0], d[1], d[2], d[3]))]
      case _ => []
  }

  function Decode8(d: seq<byte>): (calls: seq<Call>)
    ensures |calls| <= |d|
  {
    if d == [] then [] else Front8(d) + Decode8(d[Width8(d)..])
  }

  /**
   * decode_utf8_block: after an ASCII byte that leaves the read address aligned, whole words of ASCII
   * bytes are consumed four at a time. The address of the first byte is arbitrary.
   */
  method DecodeUtf8Block<T>(data: seq<byte>, address: nat, traits: Traits<T>, start: T) returns (result: T)
    ensures result == Fold(traits, Decode8(data), start)
  {
    assert data[0..] == data;
    result := start;
    var p := 0;
    while p < |data|
      invariant p <= |data|
      invariant Rest8(traits, data, p, result) == Rest8(traits, data, 0, start)
    {
      if data[p] < 0x80 {
        StepAscii(traits, data, p, result);
        result := traits.low(result, data[p]);
        p := p + 1;
        if (address + p) % 4 == 0 {
          p, result := DecodeAsciiWords(data, p, traits, result);
        }
      } else {
        p, result := DecodeNonAscii(data, p, traits, result);
      }
    }
  }

  /** The aligned loop: four ASCII bytes at a time. */
  method DecodeAsciiWords<T>(data: seq<byte>, from: nat, traits: Traits<T>, start: T) returns (p: nat, result: T)
    requires from <= |data|
    ensures from <= p <= |data| && Rest8(traits, data, p, result) == Rest8(traits, data, from, start)
  {
    p, result := from, start;
    while |data| - p >= 4 && data[p] < 0x80 && data[p + 1] < 0x80 && data[p + 2] < 0x80 && data[p + 3] < 0x80
      invariant from <= p <= |data|
      invariant Rest8(traits, data, p, result) == Rest8(traits, data, from, start)
    {
      StepWord(traits, data, p, result);
      result := traits.low(result, data[p]);
      result := traits.low(result, data[p + 1]);
      result := traits.low(result, data[p + 2]);
      result := traits.low(result, data[p + 3]);
      p := p + 4;
    }
  }

  /** The branches for lead bytes of longer sequences and for invalid bytes. */
  method DecodeNonAscii<T>(data: seq<byte>, from: nat, traits: Traits<T>, start: T) returns (p: nat, result: T)
    requires from < |data| && data[from] >= 0x80
    ensures from < p <= |data| && Rest8(traits, data, p, result) == Rest8(traits, data, from, start)
  {
    p, result := from, start;
    var lead := data[p];
    DecodeStep(traits, data, p, result);
    hide Code2, Code3, Code4, Rest8;
    ghost var d := data[p..];
    assert d[0] == lead;
    if 0xC0 <= lead < 0xE0 && |data| - p >= 2 && IsTail(data[p + 1]) {
      assert d[1] == data[p + 1];
      result := traits.low(result, Code2(lead, data[p + 1]));
      p := p + 2;
    } else if 0xE0 <= lead < 0xF0 && |data| - p >= 3 && IsTail(data[p + 1]) && IsTail(data[p + 2]) {
      assert d[1] == data[p + 1] && d[2] == data[p + 2];
      result := traits.low(result, Code3(lead, data[p + 1], data[p + 2]));
      p := p + 3;
    } else if 0xF0 <= lead < 0xF8 && |data| - p >= 4 && IsTail(data[p + 1]) && IsTail(data[p + 2]) &&
              IsTail(data[p + 3]) {
      assert d[1] == data[p + 1] && d[2] == data[p + 2] && d[3] == data[p + 3];
      result := traits.high(result, Code4(lead, data[p + 1], data[p + 2], data[p + 3]));
      p := p + 4;
    } else {
      p := p + 1;
    }
  }

  function Apply<T>(traits: Traits<T>, front: seq<Call>, result: T): T
    requires |front| <= 1
  {
    if front == [] then result
    else match front[0] case Low(ch) => traits.low(result, ch) case High(ch) => traits.high(result, ch)
  }

  /** What is left to do from position p on. */
  function Rest8<T>(traits: Traits<T>, data: seq<byte>, p: nat, result: T): T
    requires p <= |data|
  {
    Fold(traits, Decode8(data[p..]), result)
  }

  lemma DecodeStep<T>(traits: Traits<T>, data: seq<byte>, p: nat, result: T)
    requires p < |data|
    ensures var n, front := Width8(data[p..]), Front8(data[p..]);
      Rest8(traits, data, p, result) == Rest8(traits, data, p + n, Apply(traits, front, result))
  {
    var d := data[p..];
    assert d[Width8(d)..] == data[p + Width8(d)..];
    FoldConcat(traits, Front8(d), Decode8(d[Width8(d)..]), result);
    if Front8(d) != [] {
      OneCall(traits, Front8(d)[0], result);
      assert Front8(d) == [Front8(d)[0]];
    }
  }

  lemma StepAscii<T>(traits: Traits<T>, data: seq<byte>, p: nat, result: T)
    requires p < |data| && data[p] < 0x80
    ensures Rest8(traits, data, p, result) == Rest8(traits, data, p + 1, traits.low(result, data[p]))
  {
    DecodeStep(traits, data, p, result);
    assert data[p..][0] == data[p];
  }

  lemma StepWord<T>(traits: Traits<T>, data: seq<byte>, p: nat, result: T)
    requires p + 4 <= |data| && data[p] < 0x80 && data[p + 1] < 0x80 && data[p + 2] < 0x80 && data[p + 3] < 0x80
    ensures Rest8(traits, data, p, result)
         == Rest8(traits, data, p + 4,
              traits.low(traits.low(traits.low(traits.low(result, data[p]), data[p + 1]), data[p + 2]), data[p + 3]))
  {
    StepTwo(traits, data, p, result);
    StepTwo(traits, data, p + 2, traits.low(traits.low(result, data[p]), data[p + 1]));
  }

  lemma StepTwo<T>(traits: Traits<T>, data: seq<byte>, p: nat, result: T)
    requires p + 2 <= |data| && data[p] < 0x80 && data[p + 1] < 0x80
    ensures Rest8(traits, data, p, result)
         == Rest8(traits, data, p + 2, traits.low(traits.low(result, data[p]), data[p + 1]))
  {
    StepAscii(traits, data, p, result);
    StepAscii(traits, data, p + 1, traits.low(result, data[p]));
  }

  lemma OneCall<T>(traits: Traits<T>, call: Call, result: T)
    ensures Fold(traits, [call], result)
         == match call case Low(ch) => traits.low(result, ch) case High(ch) => traits.high(result, ch)
  {
    assert [call][1..] == [];
  }

  // ---------- The UTF-16 decoder ----------

  function EndianSwap16(u: unit16): (r: unit16) {
    u % 0x100 * 0x100 + u / 0x100
  }

  predicate IsLead(u: unit16) { 0xD800 <= u < 0xDC00 }
  predicate IsTrail(u: unit16) { 0xDC00 <= u < 0xE000 }

  function Pair(lead: unit16, trail: unit16): (ch: unit32)
    ensures 0x1_0000 <= ch < 0x11_0000
  {
    0x1_0000 + (lead as int % 0x400) * 0x400 + trail as int % 0x400
  }

  function Width16(d: seq<unit16>): (n: nat)
    requires d != []
    ensures 1 <= n <= 2 && n <= |d|
  {
    if IsLead(d[0]) && |d| >= 2 && IsTrail(d[1]) then 2 else 1
  }

  function Front16(d: seq<unit16>): (calls: seq<Call>)
    requires d != []
    ensures |calls| <= 1
  {
    if d[0] < 0xD800 || 0xE000 <= d[0] then [Low(d[0])]
    else if Width16(d) == 2 then [High(Pair(d[0], d[1]))]
    else []
  }

  function Decode16(d: seq<unit16>): seq<Call> {
    if d == [] then [] else Front16(d) + Decode16(d[Width16(d)..])
  }

  function Swapped(d: seq<unit16>, swap: bool): (r: seq<unit16>)
    ensures |r| == |d|
  {
    if swap then seq(|d|, i requires 0 <= i < |d| => EndianSwap16(d[i])) else d
  }

  function Rest16<T>(traits: Traits<T>, units: seq<unit16>, p: nat, result: T): T
    requires p <= |units|
  {
    Fold(traits, Decode16(units[p..]), result)
  }

  lemma Decode16Step<T>(traits: Traits<T>, units: seq<unit16>, p: nat, result: T)
    requires p < |units|
    ensures var n, front := Width16(units[p..]), Front16(units[p..]);
      Rest16(traits, units, p, result) == Rest16(traits, units, p + n, Apply(traits, front, result))
  {
    var d := units[p..];
    assert d[Width16(d)..] == units[p + Width16(d)..];
    FoldConcat(traits, Front16(d), Decode16(d[Width16(d)..]), result);
    if Front16(d) != [] {
      OneCall(traits, Front16(d)[0], result);
      assert Front16(d) == [Front16(d)[0]];
    }
  }

  method DecodeUtf16Block<T>(data: seq<unit16>, swap: bool, traits: Traits<T>, start: T) returns (result: T)
    ensures result == Fold(traits, Decode16(Swapped(data, swap)), start)
  {
    hide Pair, EndianSwap16;
    ghost var units := Swapped(data, swap);
    assert units[0..] == units;
    result := start;
    var p := 0;
    while p < |data|
      invariant p <= |data|
      invariant Rest16(traits, units, p, result) == Rest16(traits, units, 0, start)
    {
      Decode16Step(traits, units, p, result);
      assert units[p..][0] == units[p] && (p + 1 < |data| ==> units[p..][1] == units[p + 1]);
      var lead := if swap then EndianSwap16(data[p]) else data[p];
      if lead < 0xD800 || 0xE000 <= lead {
        result := traits.low(result, lead);
        p := p + 1;
      } else if lead < 0xDC00 && p + 1 < |data| {
        var next := if swap then EndianSwap16(data[p + 1]) else data[p + 1];
        if 0xDC00 <= next < 0xE000 {
          result := traits.high(result, Pair(lead, next));
          p := p + 2;
        } else {
          p := p + 1;
        }
      } else {
        p := p + 1;
      }
    }
  }

  // ---------- Round trips ----------

  /** A call that carries a Unicode scalar value, on the side of the plane boundary it belongs to. */
  predicate ScalarCall(c: Call) {
    match c
    case Low(ch) => ch < 0xD800 || 0xE000 <= ch
    case High(ch) => 0x1_0000 <= ch < 0x11_0000
  }

  predicate ScalarCalls(calls: seq<Call>) {
    forall i :: 0 <= i < |calls| ==> ScalarCall(calls[i])
  }

  lemma Encode8Decode8(c: Call, rest: seq<byte>)
    requires ScalarCall(c)
    ensures var d := Utf8Of(c) + rest; Width8(d) == |Utf8Of(c)| && Front8(d) == [c] && d[Width8(d)..] == rest
  {
    var u := Utf8Of(c);
    var d := u + rest;
    assert d[|u|..] == rest;
    assert forall i :: 0 <= i < |u| ==> d[i] == u[i];
    Encode8Bytes(c, d);
  }

  lemma Encode8Bytes(c: Call, d: seq<byte>)
    requires ScalarCall(c)
    requires Utf8Of(c) <= d
    ensures Width8(d) == |Utf8Of(c)| && Front8(d) == [c]
  {
    var u := Utf8Of(c);
    assert forall i :: 0 <= i < |u| ==> d[i] == u[i];
    match c {
      case Low(ch) =>
        if 0x80 <= ch < 0x800 {
          assert Code2(u[0], u[1]) == ch;
        } else if 0x800 <= ch {
          Join3(ch);
        }
      case High(ch) =>
        Join4(ch);
    }
  }

  lemma Join3(ch: unit16)
    ensures var u: seq<byte> := [0xE0 + ch / 0x1000, 0x80 + ch / 0x40 % 0x40, 0x80 + ch % 0x40];
      0xE0 <= u[0] < 0xF0 && IsTail(u[1]) && IsTail(u[2]) && Code3(u[0], u[1], u[2]) == ch
  {
  }

  lemma Join4(ch: unit32)
    requires ch < 0x20_0000
    ensures var u := Utf8High(ch);
      0xF0 <= u[0] < 0xF8 && IsTail(u[1]) && IsTail(u[2]) && IsTail(u[3]) && Code4(u[0], u[1], u[2], u[3]) == ch
  {
    var u := Utf8High(ch);
    assert ch / 0x4_0000 % 0x10 == ch / 0x4_0000;
    assert ch == ch / 0x40 * 0x40 + ch % 0x40;
    assert ch / 0x40 == ch / 0x1000 * 0x40 + ch / 0x40 % 0x40;
    assert ch / 0x1000 == ch / 0x4_0000 * 0x40 + ch / 0x1000 % 0x40;
  }

  lemma Encode16Decode16(c: Call, rest: seq<unit16>)
    requires ScalarCall(c)
    ensures var d := Utf16Of(c) + rest; Width16(d) == |Utf16Of(c)| && Front16(d) == [c] && d[Width16(d)..] == rest
  {
    var d := Utf16Of(c) + rest;
    assert d[|Utf16Of(c)|..] == rest;
    match c {
      case Low(ch) =>
        assert d[0] == ch;
      case High(ch) =>
        HighPair(ch);
        assert d[0] == Utf16High(ch)[0] && d[1] == Utf16High(ch)[1];
    }
  }

  lemma HighPair(ch: unit32)
    requires ScalarCall(High(ch))
    ensures var u := Utf16High(ch); IsLead(u[0]) && IsTrail(u[1]) && Pair(u[0], u[1]) == ch
  {
    var u := Utf16High(ch);
    assert u[0] == 0xD800 + (ch - 0x1_0000) / 0x400 && u[1] == 0xDC00 + (ch - 0x1_0000) % 0x400;
  }

  /** Scalar values written as UTF-8 are decoded back unchanged (section 3 of RFC 3629). */
  lemma {:induction false} Utf8EncodeDecode(calls: seq<Call>)
    requires ScalarCalls(calls)
    ensures Decode8(Units8(calls)) == calls
  {
    if calls != [] {
      Utf8EncodeDecode(calls[1..]);
      Encode8Decode8(calls[0], Units8(calls[1..]));
    }
  }

  /** Scalar values written as UTF-16 are decoded back unchanged (section 2 of RFC 2781). */
  lemma {:induction false} Utf16EncodeDecode(calls: seq<Call>)
    requires ScalarCalls(calls)
    ensures Decode16(Units16(calls)) == calls
  {
    if calls != [] {
      Utf16EncodeDecode(calls[1..]);
      Encode16Decode16(calls[0], Units16(calls[1..]));
    }
  }

  /** The UTF-16 decoder yields scalar values only, whatever it is given. */
  lemma {:induction false} Decode16Scalars(d: seq<unit16>)
    ensures ScalarCalls(Decode16(d))
  {
    if d != [] {
      Decode16Scalars(d[Width16(d)..]);
    }
  }

  /** Every surrogate is part of a lead and trail pair (section 2.1 of RFC 2781). */
  predicate WellFormed16(d: seq<unit16>) {
    d == [] ||
    (if IsLead(d[0]) then |d| >= 2 && IsTrail(d[1]) && WellFormed16(d[2..])
     else !IsTrail(d[0]) && WellFormed16(d[1..]))
  }

  /** The byte sequences of the UTF8-char rule (section 4 of RFC 3629). */
  function Utf8CharLength(d: seq<byte>): (n: nat)
    ensures n <= |d| && n <= 4
  {
    if |d| >= 1 && d[0] < 0x80 then 1
    else if |d| >= 2 && 0xC2 <= d[0] <= 0xDF && IsTail(d[1]) then 2
    else if |d| >= 3 && IsTail(d[2]) &&
            ((d[0] == 0xE0 && 0xA0 <= d[1] <= 0xBF) || (0xE1 <= d[0] <= 0xEC && IsTail(d[1])) ||
             (d[0] == 0xED && 0x80 <= d[1] <= 0x9F) || (0xEE <= d[0] <= 0xEF && IsTail(d[1]))) then 3
    else if |d| >= 4 && IsTail(d[2]) && IsTail(d[3]) &&
            ((d[0] == 0xF0 && 0x90 <= d[1] <= 0xBF) || (0xF1 <= d[0] <= 0xF3 && IsTail(d[1])) ||
             (d[0] == 0xF4 && 0x80 <= d[1] <= 0x8F)) then 4
    else 0
  }

  predicate WellFormed8(d: seq<byte>) {
    d == [] || (Utf8CharLength(d) > 0 && WellFormed8(d[Utf8CharLength(d)..]))
  }

  lemma {:induction false} Units16WellFormed(calls: seq<Call>)
    requires ScalarCalls(calls)
    ensures WellFormed16(Units16(calls))
  {
    if calls != [] {
      Units16WellFormed(calls[1..]);
      Encode16Decode16(calls[0], Units16(calls[1..]));
      var d := Units16(calls);
      assert d == Utf16Of(calls[0]) + Units16(calls[1..]);
    }
  }

  lemma {:induction false} Units8WellFormed(calls: seq<Call>)
    requires ScalarCalls(calls)
    ensures WellFormed8(Units8(calls))
  {
    if calls != [] {
      Units8WellFormed(calls[1..]);
      Encode8Decode8(calls[0], Units8(calls[1..]));
      var d := Units8(calls);
      assert d == Utf8Of(calls[0]) + Units8(calls[1..]);
      assert Utf8CharLength(d) == |Utf8Of(calls[0])|;
    }
  }

  lemma {:induction false} Reencode16(d: seq<unit16>)
    requires WellFormed16(d)
    ensures Units16(Decode16(d)) == d
  {
    if d != [] {
      var n := Width16(d);
      Reencode16(d[n..]);
      FlattenConcat(Utf16Of, Front16(d), Decode16(d[n..]));
      assert Front16(d)[1..] == [];
      assert Units16(Front16(d)) == Utf16Of(Front16(d)[0]);
      assert Utf16Of(Front16(d)[0]) == d[..n];
    }
  }

  lemma CharIsScalar(d: seq<byte>)
    requires d != [] && Utf8CharLength(d) > 0
    ensures Width8(d) == Utf8CharLength(d)
    ensures |Front8(d)| == 1 && ScalarCall(Front8(d)[0]) && Utf8Of(Front8(d)[0]) == d[..Width8(d)]
  {
    if Utf8CharLength(d) == 2 {
      Rewrite2(d[0], d[1]);
    } else if Utf8CharLength(d) == 3 {
      Rewrite3(d[0], d[1], d[2]);
    } else if Utf8CharLength(d) == 4 {
      Rewrite4(d[0], d[1], d[2], d[3]);
    }
  }

  lemma Rewrite2(a: byte, b: byte)
    requires 0xC2 <= a < 0xE0 && IsTail(b)
    ensures Utf8Low(Code2(a, b)) == [a, b]
  {
    assert Code2(a, b) >= 0x80;
  }

  lemma Rewrite3(a: byte, b: byte, c: byte)
    requires 0xE0 <= a < 0xF0 && IsTail(b) && IsTail(c) && (a == 0xE0 ==> b >= 0xA0) && (a == 0xED ==> b < 0xA0)
    ensures Utf8Low(Code3(a, b, c)) == [a, b, c]
    ensures ScalarCall(Low(Code3(a, b, c)))
  {
    var ch := Code3(a, b, c);
    assert ch / 0x40 == (a as int - 0xE0) * 0x40 + (b as int - 0x80);
  }

  lemma Rewrite4(a: byte, b: byte, c: byte, d: byte)
    requires 0xF0 <= a <= 0xF4 && IsTail(b) && IsTail(c) && IsTail(d) && (a == 0xF0 ==> b >= 0x90) &&
      (a == 0xF4 ==> b < 0x90)
    ensures Utf8High(Code4(a, b, c, d)) == [a, b, c, d]
    ensures ScalarCall(High(Code4(a, b, c, d)))
  {
    var ch := Code4(a, b, c, d);
    assert ch / 0x1000 == (a as int - 0xF0) * 0x40 + (b as int - 0x80);
  }

  lemma {:induction false} Reencode8(d: seq<byte>)
    requires WellFormed8(d)
    ensures ScalarCalls(Decode8(d))
    ensures Units8(Decode8(d)) == d
  {
    hide Front8, Width8, Utf8Of, ScalarCall;
    if d != [] {
      CharIsScalar(d);
      var n, front := Width8(d), Front8(d);
      Reencode8(d[n..]);
      assert front == [front[0]];
      ReencodeFront(front[0], Decode8(d[n..]), d[n..]);
      assert Decode8(d) == front + Decode8(d[n..]);
      assert d[..n] + d[n..] == d;
    }
  }

  lemma ReencodeFront(c: Call, calls: seq<Call>, rest: seq<byte>)
    requires ScalarCall(c) && ScalarCalls(calls) && Units8(calls) == rest
    ensures ScalarCalls([c] + calls)
    ensures Units8([c] + calls) == Utf8Of(c) + rest
  {
    assert ([c] + calls)[1..] == calls;
  }

  /** UTF-16 to UTF-8 to UTF-16 gives the text back exactly when every surrogate is paired. */
  lemma Utf16ThroughUtf8(d: seq<unit16>)
    ensures Units16(Decode8(Units8(Decode16(d)))) == d <==> WellFormed16(d)
  {
    Decode16Scalars(d);
    Utf8EncodeDecode(Decode16(d));
    Units16WellFormed(Decode16(d));
    if WellFormed16(d) {
      Reencode16(d);
    }
  }

  /** UTF-8 to UTF-16 to UTF-8 gives the bytes back exactly when they are well formed. */
  lemma Utf8ThroughUtf16(d: seq<byte>)
    ensures Units8(Decode16(Units16(Decode8(d)))) == d <==> WellFormed8(d)
  {
    Decode16Scalars(Units16(Decode8(d)));
    Units8WellFormed(Decode16(Units16(Decode8(d))));
    if WellFormed8(d) {
      Reencode8(d);
      Utf16EncodeDecode(Decode8(d));
    }
  }
}
