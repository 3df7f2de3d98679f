/** Escaped output read back by the parser's text conversion. */
module Escaping {
  import opened Chars
  import opened Refs
  import opened Printer

  /** Tabs become spaces. */
  function Detab(v: seq<byte>): (r: seq<byte>)
    ensures |r| == |v| && forall i :: 0 <= i < |v| ==> r[i] == if v[i] == TAB then SPACE else v[i]
  {
    seq(|v|, i requires 0 <= i < |v| => if v[i] == TAB then SPACE else v[i])
  }

  /** Two decimal digits and a semicolon are a reference to the byte they spell. */
  lemma NumericRef(c: byte, rest: seq<byte>)
    requires c < 32
    ensures FrontRef([AMP, HASH, c / 10 + ZERO, c % 10 + ZERO, SEMI] + rest) == Ref([c], 5)
  {
    var u := [AMP, HASH, c / 10 + ZERO, c % 10 + ZERO, SEMI] + rest;
    var d := u[2..];
    assert d[0] == c / 10 + ZERO && d[1] == c % 10 + ZERO && d[2] == SEMI;
    assert DigitCount(d, false) == 2 by {
      assert d[1..][1..][0] == SEMI && DigitCount(d[1..][1..], false) == 0;
    }
    var digits := d[..2];
    assert digits[1..] == [c % 10 + ZERO] && digits[1..][1..] == [];
    TwoDigits(c, digits);
  }

  lemma TwoDigits(c: byte, digits: seq<byte>)
    requires c < 32 && digits == [c / 10 + ZERO, c % 10 + ZERO]
    ensures Accumulate(digits, false, 0) == c
  {
    var one := digits[1..];
    assert one == [c % 10 + ZERO] && one[1..] == [];
    var tens := AddDigit(0, digits[0], false);
    assert tens == c / 10 && AddDigit(tens, one[0], false) == c;
    assert Accumulate(one, false, tens) == Accumulate(one[1..], false, AddDigit(tens, one[0], false));
  }

  lemma NamedRef(c: byte, rest: seq<byte>)
    requires c == AMP || c == LT || c == GT || c == QUOT
    ensures FrontRef(Reference(c) + rest) == Ref([c], |Reference(c)|)
  {
    var u := Reference(c) + rest;
    var v := u[1..];
    assert u[0] == AMP && u[1] == Reference(c)[1];
    assert v == Reference(c)[1..] + rest;
    assert v[0] == u[1];
  }

  lemma ReferenceRead(c: byte, rest: seq<byte>)
    requires IsSpecialAttr(c) || IsSpecialPcdata(c)
    ensures FrontRef(Reference(c) + rest) == Ref([c], |Reference(c)|)
    ensures (Reference(c) + rest)[|Reference(c)|..] == rest
  {
    hide FrontRef;
    if c < 32 {
      NumericRef(c, rest);
    } else {
      NamedRef(c, rest);
    }
  }

  /** One special byte: written as a reference, read as itself. */
  lemma ConvertReference(c: byte, rest: seq<byte>, lines: Lines)
    requires IsSpecialAttr(c) || IsSpecialPcdata(c)
    ensures Convert(Reference(c) + rest, lines, true) == [c] + Convert(rest, lines, true)
  {
    hide FrontRef;
    ReferenceRead(c, rest);
    var u := Reference(c) + rest;
    assert u[0] == AMP;
  }

  lemma EscapeHead(v: seq<byte>, attr: bool)
    requires v != []
    ensures Escape(v, attr) != []
    ensures Escape(v, attr)[0] == if IsSpecial(v[0], attr) then AMP else v[0]
  {
  }

  /** Character data written and read back: only line ends are normalised. */
  lemma {:induction false} ConvertEscapedText(v: seq<byte>)
    ensures Convert(Escape(v, false), Eol, true) == Convert(v, Eol, false)
    decreases |v|
  {
    hide FrontRef;
    if v != [] {
      var c, e := v[0], Escape(v[1..], false);
      if IsSpecialPcdata(c) {
        ConvertEscapedText(v[1..]);
        ConvertReference(c, e, Eol);
        ConvertStep(v, Eol, false);
      } else if c == CR && |v| > 1 && v[1] == LF {
        CarriageReturnPair(v);
        ConvertEscapedText(v[2..]);
      } else if c == CR {
        if |v| > 1 {
          EscapeHead(v[1..], false);
        }
        ConvertEscapedText(v[1..]);
        assert ([c] + e)[1..] == e;
      } else {
        ConvertEscapedText(v[1..]);
        assert ([c] + e)[1..] == e;
        ConvertStep([c] + e, Eol, true);
        ConvertStep(v, Eol, false);
      }
    }
  }

  lemma CarriageReturnPair(v: seq<byte>)
    requires |v| > 1 && v[0] == CR && v[1] == LF
    ensures Convert(Escape(v, false), Eol, true) == [LF] + Convert(Escape(v[2..], false), Eol, true)
    ensures Convert(v, Eol, false) == [LF] + Convert(v[2..], Eol, false)
  {
    hide Convert, Escape;
    PairEscaped(v);
    ConvertPair(Escape(v[2..], false), true);
    ConvertPair(v[2..], false);
    assert v == [CR, LF] + v[2..];
  }

  lemma PairEscaped(v: seq<byte>)
    requires |v| > 1 && v[0] == CR && v[1] == LF
    ensures Escape(v, false) == [CR, LF] + Escape(v[2..], false)
  {
    hide Escape, Reference;
    assert v[..2] == [CR, LF];
    EscapePlain(v, 2, false);
  }

  lemma ConvertPair(rest: seq<byte>, escapes: bool)
    ensures Convert([CR, LF] + rest, Eol, escapes) == [LF] + Convert(rest, Eol, escapes)
  {
    hide FrontRef;
    var u := [CR, LF] + rest;
    assert u[2..] == rest && u[0] == CR && u[1] == LF;
  }

  lemma ConvertNothing(lines: Lines, escapes: bool)
    ensures Convert([], lines, escapes) == []
  {
  }

  lemma ConvertPlainAttribute(c: byte, rest: seq<byte>)
    requires !IsSpecialAttr(c)
    ensures Convert([c] + rest, Wconv, true) == [if c == TAB then SPACE else c] + Convert(rest, Wconv, true)
  {
    hide FrontRef;
    assert ([c] + rest)[1..] == rest;
  }

  /** An attribute value written and read back: only tabs are lost, to spaces. */
  lemma {:induction false} ConvertEscapedAttribute(v: seq<byte>)
    ensures Convert(Escape(v, true), Wconv, true) == Detab(v)
  {
    hide Convert, Reference;
    if v == [] {
      ConvertNothing(Wconv, true);
    } else {
      var c, e := v[0], Escape(v[1..], true);
      ConvertEscapedAttribute(v[1..]);
      if IsSpecialAttr(c) {
        ConvertReference(c, e, Wconv);
      } else {
        ConvertPlainAttribute(c, e);
      }
      assert Detab(v) == [if c == TAB then SPACE else c] + Detab(v[1..]);
    }
  }

  /** Escaped text holds no markup, and is white space only when the text is. */
  lemma {:induction false} EscapedBytes(v: seq<byte>, attr: bool)
    ensures LT !in Escape(v, attr) && NUL !in Escape(v, attr) && (attr ==> QUOT !in Escape(v, attr))
    ensures AllSpace(Escape(v, false)) <==> AllSpace(v)
  {
    if v != [] {
      EscapedBytes(v[1..], attr);
      var first := if IsSpecial(v[0], attr) then Reference(v[0]) else [v[0]];
      assert LT !in first && NUL !in first && (attr ==> QUOT !in first);
      EscapedSpace(v);
    }
  }

  lemma EscapedSpace(v: seq<byte>)
    requires v != [] && (AllSpace(Escape(v[1..], false)) <==> AllSpace(v[1..]))
    ensures AllSpace(Escape(v, false)) <==> AllSpace(v)
  {
    var e, rest := Escape(v, false), Escape(v[1..], false);
    EscapeHead(v, false);
    if !IsSpecialPcdata(v[0]) {
      assert e == [v[0]] + rest && e[1..] == rest;
      assert forall i :: 0 <= i < |rest| ==> rest[i] == e[i + 1];
      assert forall i :: 0 <= i < |v[1..]| ==> v[1..][i] == v[i + 1];
      AllSpaceCons(v[0], rest);
      AllSpaceCons(v[0], v[1..]);
      assert v == [v[0]] + v[1..];
    }
  }

  lemma AllSpaceCons(c: byte, s: seq<byte>)
    ensures AllSpace([c] + s) <==> IsSpace(c) && AllSpace(s)
  {
    var t := [c] + s;
    assert t[0] == c && forall i :: 0 <= i < |s| ==> t[i + 1] == s[i];
  }

  lemma {:induction false} EscapeConcat(x: seq<byte>, y: seq<byte>, attr: bool)
    ensures Escape(x + y, attr) == Escape(x, attr) + Escape(y, attr)
  {
    hide EscapeByte, Escape;
    if x == [] {
      assert x + y == y;
      EscapeNothing(attr);
    } else {
      EscapeConcat(x[1..], y, attr);
      EscapeCons(x, attr);
      EscapeCons(x + y, attr);
      assert (x + y)[1..] == x[1..] + y;
    }
  }

  lemma EscapeCons(v: seq<byte>, attr: bool)
    requires v != []
    ensures Escape(v, attr) == EscapeByte(v[0], attr) + Escape(v[1..], attr)
  {
  }

  /** Reading keeps a text without references and carriage returns, and only those. */
  lemma {:induction false} EolIdentity(v: seq<byte>)
    ensures CR !in Convert(v, Eol, false)
    ensures Convert(v, Eol, false) == v <==> CR !in v
    decreases |v|
  {
    if v != [] {
      var n := Taken(v, Eol, false);
      EolIdentity(v[n..]);
      assert Convert(v, Eol, false) == Given(v, Eol, false) + Convert(v[n..], Eol, false);
      assert v == v[..n] + v[n..];
      if v[0] != CR {
        assert n == 1 && v[..1] == [v[0]];
      }
    }
  }

  /** Normalising line ends keeps zero bytes out. */
  lemma {:induction false} EolNoNul(v: seq<byte>)
    requires NUL !in v
    ensures NUL !in Convert(v, Eol, false)
    decreases |v|
  {
    if v != [] {
      var n := Taken(v, Eol, false);
      assert forall x :: x in v[n..] ==> x in v;
      EolNoNul(v[n..]);
      assert v[0] in v;
    }
  }
}
