/**
 * What references and white space in a text stand for, said apart from the scanning that finds them: the
 * five named references, numbers written in decimal or hexadecimal figures, line ends and white space.
 */
module RefLaws {
  import opened Chars
  import opened Utf
  import opened Refs
  import opened Decimal

  // ---------- Numbers in figures ----------

  /** The figure for a value below sixteen, in either case. */
  function Figure(v: nat, upper: bool): byte
    requires v < 16
  {
    if v < 10 then 48 + v else if upper then 65 + (v - 10) else 97 + (v - 10)
  }

  function Base(hex: bool): nat {
    if hex then 16 else 10
  }

  /** The text shows these digits, the letters in any case. */
  predicate Shows(u: seq<byte>, ds: seq<nat>, hex: bool) {
    |u| == |ds| && forall i :: 0 <= i < |u| ==>
      ds[i] < Base(hex) && (u[i] == Figure(ds[i], false) || u[i] == Figure(ds[i], true))
  }

  /** The number digits stand for, the last digit counting once. */
  function Number(ds: seq<nat>, hex: bool): nat {
    if ds == [] then 0 else Base(hex) * Number(ds[..|ds| - 1], hex) + ds[|ds| - 1]
  }

  lemma FigureIs(c: byte, v: nat, hex: bool)
    requires v < Base(hex) && (c == Figure(v, false) || c == Figure(v, true))
    ensures IsDigit(c, hex) && DigitValue(c) == v
  {
  }

  lemma FigureOf(c: byte, hex: bool) returns (v: nat)
    requires IsDigit(c, hex)
    ensures v < Base(hex) && (c == Figure(v, false) || c == Figure(v, true))
  {
    v := DigitValue(c);
  }

  lemma ShownDigits(u: seq<byte>, ds: seq<nat>, hex: bool)
    requires Shows(u, ds, hex)
    ensures forall i :: 0 <= i < |u| ==> IsDigit(u[i], hex)
  {
    forall i | 0 <= i < |u|
      ensures IsDigit(u[i], hex)
    {
      FigureIs(u[i], ds[i], hex);
    }
  }

  lemma DigitsShown(u: seq<byte>, hex: bool) returns (ds: seq<nat>)
    requires forall i :: 0 <= i < |u| ==> IsDigit(u[i], hex)
    ensures Shows(u, ds, hex)
  {
    ds := [];
    var i := 0;
    while i < |u|
      invariant i <= |u| && Shows(u[..i], ds, hex)
    {
      var v := FigureOf(u[i], hex);
      assert u[..i + 1] == u[..i] + [u[i]];
      ds := ds + [v];
      i := i + 1;
    }
    assert u[..i] == u;
  }

  /** Accumulating from the left, with wrap-around at every step, gives the number modulo 2^32. */
  lemma {:induction false} AccumulateIs(u: seq<byte>, ds: seq<nat>, hex: bool)
    requires Shows(u, ds, hex)
    ensures (forall i :: 0 <= i < |u| ==> IsDigit(u[i], hex)) &&
      Accumulate(u, hex, 0) == Number(ds, hex) % 0x1_0000_0000
    decreases |u|
  {
    hide Accumulate;
    ShownDigits(u, ds, hex);
    if u == [] {
      AccumulateNothing(hex, 0);
    } else {
      var n := |u| - 1;
      AccumulateIs(u[..n], ds[..n], hex);
      assert u == u[..n] + [u[n]];
      AccumulateSnoc(u[..n], u[n], hex, 0);
      FigureIs(u[n], ds[n], hex);
      Wrapped(Base(hex), Number(ds[..n], hex), ds[n]);
    }
  }

  lemma AccumulateNothing(hex: bool, value: unit32)
    ensures Accumulate([], hex, value) == value
  {
  }

  lemma {:induction false} AccumulateSnoc(u: seq<byte>, c: byte, hex: bool, value: unit32)
    requires (forall i :: 0 <= i < |u| ==> IsDigit(u[i], hex)) && IsDigit(c, hex)
    ensures forall i :: 0 <= i < |u + [c]| ==> IsDigit((u + [c])[i], hex)
    ensures Accumulate(u + [c], hex, value) == AddDigit(Accumulate(u, hex, value), c, hex)
    decreases |u|
  {
    hide AddDigit;
    if u == [] {
      assert [] + [c] == [c] && [c][1..] == [];
    } else {
      AccumulateSnoc(u[1..], c, hex, AddDigit(value, u[0], hex));
      assert (u + [c])[1..] == u[1..] + [c];
    }
  }

  lemma Wrapped(base: nat, n: nat, d: nat)
    ensures (base * (n % 0x1_0000_0000) + d) % 0x1_0000_0000 == (base * n + d) % 0x1_0000_0000
  {
    var m := 0x1_0000_0000;
    var q := n / m;
    assert n == q * m + n % m;
    assert base * n + d == (base * q) * m + (base * (n % m) + d);
    MultipleAdded(base * q, base * (n % m) + d);
  }

  lemma {:induction false} MultipleAdded(k: nat, x: nat)
    ensures (k * 0x1_0000_0000 + x) % 0x1_0000_0000 == x % 0x1_0000_0000
  {
  }

  // ---------- References ----------

  const AMP_NAME: seq<byte> := [97, 109, 112]          // amp
  const APOS_NAME: seq<byte> := [97, 112, 111, 115]    // apos
  const GT_NAME: seq<byte> := [103, 116]               // gt
  const LT_NAME: seq<byte> := [108, 116]               // lt
  const QUOT_NAME: seq<byte> := [113, 117, 111, 116]   // quot

  predicate Names(name: seq<byte>, c: byte) {
    (name == AMP_NAME && c == AMP) || (name == APOS_NAME && c == APOS) || (name == GT_NAME && c == GT) ||
    (name == LT_NAME && c == LT) || (name == QUOT_NAME && c == QUOT)
  }

  function NamedRef(name: seq<byte>): seq<byte> {
    [AMP] + name + [SEMI]
  }

  function NumberRef(figures: seq<byte>, hex: bool): seq<byte> {
    [AMP, HASH] + (if hex then [120] else []) + figures + [SEMI]
  }

  /** A character of that number, as 32 bits hold it. */
  predicate NumberStands(r: seq<byte>, text: seq<byte>, hex: bool, figures: seq<byte>, ds: seq<nat>) {
    ds != [] && Shows(figures, ds, hex) && r == NumberRef(figures, hex) &&
    text == Utf8Any(Number(ds, hex) % 0x1_0000_0000)
  }

  /** r is a reference and stands for the text. */
  ghost predicate StandsFor(r: seq<byte>, text: seq<byte>) {
    (exists name: seq<byte>, c: byte :: Names(name, c) && r == NamedRef(name) && text == [c]) ||
    (exists hex: bool, figures: seq<byte>, ds: seq<nat> :: NumberStands(r, text, hex, figures, ds))
  }

  /** Figures up to a semicolon are all counted. */
  lemma {:induction false} CountFigures(figures: seq<byte>, rest: seq<byte>, hex: bool)
    requires forall i :: 0 <= i < |figures| ==> IsDigit(figures[i], hex)
    ensures DigitCount(figures + ([SEMI] + rest), hex) == |figures|
    decreases |figures|
  {
    var v := figures + ([SEMI] + rest);
    if figures == [] {
      assert v == [SEMI] + rest;
    } else {
      CountFigures(figures[1..], rest, hex);
      assert v[1..] == figures[1..] + ([SEMI] + rest) && v[0] == figures[0];
    }
  }

  lemma CharRefRead(figures: seq<byte>, ds: seq<nat>, rest: seq<byte>, hex: bool, prefix: nat)
    requires prefix >= 2 && ds != [] && Shows(figures, ds, hex)
    ensures CharRef(figures + ([SEMI] + rest), hex, prefix)
         == Ref(Utf8Any(Number(ds, hex) % 0x1_0000_0000), prefix + |figures| + 1)
  {
    hide Utf8Any, Accumulate, AddDigit, DigitCount, Number, Shows;
    AccumulateIs(figures, ds, hex);
    SameLength(figures, ds, hex);
    CountFigures(figures, rest, hex);
    var v := figures + ([SEMI] + rest);
    assert v[..|figures|] == figures && v[|figures|] == SEMI;
  }

  lemma SameLength(u: seq<byte>, ds: seq<nat>, hex: bool)
    requires Shows(u, ds, hex)
    ensures |u| == |ds|
  {
  }

  lemma CharRefShown(v: seq<byte>, hex: bool, prefix: nat) returns (figures: seq<byte>, ds: seq<nat>)
    requires prefix >= 2 && CharRef(v, hex, prefix).Ref?
    ensures var n := |figures|;
      n < |v| && v[..n + 1] == figures + [SEMI] && ds != [] && Shows(figures, ds, hex) &&
      CharRef(v, hex, prefix) == Ref(Utf8Any(Number(ds, hex) % 0x1_0000_0000), prefix + n + 1)
  {
    hide Utf8Any, Accumulate, AddDigit, DigitCount, Number, Shows;
    var n := DigitCount(v, hex);
    figures := v[..n];
    ds := DigitsShown(figures, hex);
    SameLength(figures, ds, hex);
    AccumulateIs(figures, ds, hex);
    assert v[..n + 1] == figures + [SEMI];
  }

  /** A number reference at the front of a text is read as the number. */
  lemma NumberRead(u: seq<byte>, r: seq<byte>, text: seq<byte>, hex: bool, figures: seq<byte>, ds: seq<nat>)
    requires NumberStands(r, text, hex, figures, ds) && r <= u
    ensures u[0] == AMP && FrontRef(u) == Ref(text, |r|)
  {
    hide Utf8Any, CharRef, Number, Shows;
    var rest := u[|r|..];
    var prefix := if hex then 3 else 2;
    NumberLayout(u, r, hex, figures);
    CharRefRead(figures, ds, rest, hex, prefix);
    SameLength(figures, ds, hex);
    if !hex {
      FirstFigure(figures, ds);
      assert u[2] == figures[0];
    }
  }

  lemma NumberLayout(u: seq<byte>, r: seq<byte>, hex: bool, figures: seq<byte>)
    requires r == NumberRef(figures, hex) && r <= u
    ensures var prefix := if hex then 3 else 2;
      |u| > prefix && u[0] == AMP && u[1] == HASH && (hex ==> u[2] == 120) && |r| == prefix + |figures| + 1 &&
      u[prefix..] == figures + ([SEMI] + u[|r|..]) && (figures != [] ==> u[prefix] == figures[0])
  {
    var prefix := if hex then 3 else 2;
    assert u == r + u[|r|..];
    assert r[prefix..] == figures + [SEMI];
    assert u[prefix..] == r[prefix..] + u[|r|..];
    assert r[0] == AMP && r[1] == HASH && (hex ==> r[2] == 120);
    assert u[0] == r[0] && u[1] == r[1] && (hex ==> u[2] == r[2]);
  }

  lemma FirstFigure(figures: seq<byte>, ds: seq<nat>)
    requires Shows(figures, ds, false) && ds != []
    ensures figures != [] && figures[0] != 120
  {
  }

  /** One of the five names at the front of a text. */
  lemma NameRead(u: seq<byte>, name: seq<byte>, c: byte)
    requires Names(name, c) && NamedRef(name) <= u
    ensures u[0] == AMP && FrontRef(u) == Ref([c], |name| + 2)
  {
    hide CharRef;
    var r := NamedRef(name);
    assert u[0] == r[0] && u[1] == r[1] && u[2] == r[2];
    TailAhead(u, name);
    assert name[0] != HASH;
    NamesApart(u, name, c);
  }

  lemma TailAhead(u: seq<byte>, name: seq<byte>)
    requires NamedRef(name) <= u
    ensures name + [SEMI] <= u[1..]
  {
    var r := NamedRef(name);
    assert r[1..] == name + [SEMI];
    assert u[1..][..|r| - 1] == r[1..];
  }

  /** No name is read as another. */
  lemma NamesApart(u: seq<byte>, name: seq<byte>, c: byte)
    requires Names(name, c) && u != [] && u[0] == AMP && name + [SEMI] <= u[1..]
    ensures FrontRef(u) == Ref([c], |name| + 2)
  {
    hide CharRef;
    var v := u[1..];
    var x := name + [SEMI];
    assert |x| == |name| + 1 && x[0] == name[0] && x[1] == name[1];
    assert v[0] == x[0] && v[1] == x[1];
    assert u[1] == v[0];
    assert name == AMP_NAME ==> x == AMP_TAIL;
    assert name == APOS_NAME ==> x == APOS_TAIL;
    assert name == GT_NAME ==> x == GT_TAIL;
    assert name == LT_NAME ==> x == LT_TAIL;
    assert name == QUOT_NAME ==> x == QUOT_TAIL;
  }

  lemma NameFound(u: seq<byte>) returns (name: seq<byte>, c: byte)
    requires u != [] && u[0] == AMP && FrontRef(u).Ref? && !(|u| >= 2 && u[1] == HASH)
    ensures Names(name, c) && |name| + 2 <= |u| && u[..|name| + 2] == NamedRef(name) &&
      FrontRef(u) == Ref([c], |name| + 2)
  {
    hide CharRef;
    var v := u[1..];
    if AMP_TAIL <= v {
      name, c := AMP_NAME, AMP;
      TailIs(u, name, AMP_TAIL);
    } else if APOS_TAIL <= v {
      name, c := APOS_NAME, APOS;
      TailIs(u, name, APOS_TAIL);
    } else if GT_TAIL <= v {
      name, c := GT_NAME, GT;
      TailIs(u, name, GT_TAIL);
    } else if LT_TAIL <= v {
      name, c := LT_NAME, LT;
      TailIs(u, name, LT_TAIL);
    } else {
      name, c := QUOT_NAME, QUOT;
      TailIs(u, name, QUOT_TAIL);
    }
  }

  lemma TailIs(u: seq<byte>, name: seq<byte>, tail: seq<byte>)
    requires u != [] && u[0] == AMP && tail <= u[1..] && tail == name + [SEMI]
    ensures |name| + 2 <= |u| && u[..|name| + 2] == NamedRef(name)
  {
    assert u[..|name| + 2] == [AMP] + u[1..][..|tail|];
  }

  /** A text starts with a reference exactly when the scan finds it, with that meaning and that length. */
  lemma RefExactly(u: seq<byte>, text: seq<byte>, k: nat)
    requires u != [] && u[0] == AMP
    ensures FrontRef(u) == Ref(text, k) <==> k <= |u| && StandsFor(u[..k], text)
  {
    hide FrontRef, Names, NamedRef, NumberRef, NumberStands;
    if k <= |u| && StandsFor(u[..k], text) {
      if name: seq<byte>, c: byte :| Names(name, c) && u[..k] == NamedRef(name) && text == [c] {
        NamedLength(name);
        NameRead(u, name, c);
      } else {
        var hex, figures, ds :| NumberStands(u[..k], text, hex, figures, ds);
        NumberRead(u, u[..k], text, hex, figures, ds);
      }
    }
    if FrontRef(u) == Ref(text, k) {
      RefFound(u, text, k);
    }
  }

  lemma NamedLength(name: seq<byte>)
    ensures |NamedRef(name)| == |name| + 2
  {
  }

  lemma RefFound(u: seq<byte>, text: seq<byte>, k: nat)
    requires u != [] && u[0] == AMP && FrontRef(u) == Ref(text, k)
    ensures k <= |u| && StandsFor(u[..k], text)
  {
    hide Names, NamedRef, CharRef, Shows, Number, Utf8Any;
    if |u| >= 2 && u[1] == HASH {
      var hex := |u| >= 3 && u[2] == 120;
      var prefix := if hex then 3 else 2;
      var figures, ds := CharRefShown(u[prefix..], hex, prefix);
      NumberFound(u, hex, figures);
      assert NumberStands(u[..k], text, hex, figures, ds);
    } else {
      var name, c := NameFound(u);
    }
  }

  lemma NumberFound(u: seq<byte>, hex: bool, figures: seq<byte>)
    requires var prefix := if hex then 3 else 2;
      prefix + |figures| < |u| && u[prefix..][..|figures| + 1] == figures + [SEMI]
    requires u[0] == AMP && u[1] == HASH && (hex ==> u[2] == 120)
    ensures u[..(if hex then 3 else 2) + |figures| + 1] == NumberRef(figures, hex)
  {
    var prefix := if hex then 3 else 2;
    var k := prefix + |figures| + 1;
    assert u[..k] == u[..prefix] + u[prefix..][..|figures| + 1];
    assert u[..prefix] == [AMP, HASH] + (if hex then [120] else []);
  }

  // ---------- Numbers as they are usually written ----------

  /** Hexadecimal text without leading zeros. */
  function HexDigits(n: nat, upper: bool): (r: seq<byte>)
    ensures r != []
  {
    if n < 16 then [Figure(n, upper)] else HexDigits(n / 16, upper) + [Figure(n % 16, upper)]
  }

  lemma {:induction false} HexShown(n: nat, upper: bool) returns (ds: seq<nat>)
    ensures Shows(HexDigits(n, upper), ds, true) && Number(ds, true) == n
  {
    if n < 16 {
      ds := [n];
      assert ds[..0] == [];
    } else {
      var front := HexShown(n / 16, upper);
      ds := front + [n % 16];
      assert ds[..|ds| - 1] == front;
    }
  }

  lemma {:induction false} DecimalShown(n: nat) returns (ds: seq<nat>)
    ensures Shows(Digits(n), ds, false) && Number(ds, false) == n
  {
    if n < 10 {
      ds := [n];
      assert ds[..0] == [];
    } else {
      var front := DecimalShown(n / 10);
      ds := front + [n % 10];
      assert ds[..|ds| - 1] == front;
    }
  }

  /** A reference by number, decimal or hexadecimal in either case, at the front of any text. */
  lemma NumbersRead(n: nat, upper: bool, rest: seq<byte>)
    requires n < 0x1_0000_0000
    ensures var r := NumberRef(HexDigits(n, upper), true); FrontRef(r + rest) == Ref(Utf8Any(n), |r|)
    ensures var r := NumberRef(Digits(n), false); FrontRef(r + rest) == Ref(Utf8Any(n), |r|)
  {
    hide FrontRef, Shows, Number, NumberRef, Utf8Any, HexDigits, Digits;
    var hs := HexShown(n, upper);
    ShownSome(HexDigits(n, upper), hs, true);
    var h := NumberRef(HexDigits(n, upper), true);
    NumberRead(h + rest, h, Utf8Any(n), true, HexDigits(n, upper), hs);
    var ds := DecimalShown(n);
    ShownSome(Digits(n), ds, false);
    var d := NumberRef(Digits(n), false);
    NumberRead(d + rest, d, Utf8Any(n), false, Digits(n), ds);
  }

  lemma ShownSome(u: seq<byte>, ds: seq<nat>, hex: bool)
    requires Shows(u, ds, hex) && u != []
    ensures ds != []
  {
  }

  // ---------- References in a text ----------

  /** Wherever a reference stands at the front, the text reads as what it stands for and then the rest. */
  lemma ConvertStands(r: seq<byte>, text: seq<byte>, rest: seq<byte>, lines: Lines)
    requires StandsFor(r, text)
    ensures Convert(r + rest, lines, true) == text + Convert(rest, lines, true)
  {
    hide FrontRef, StandsFor, Utf8Any;
    var u := r + rest;
    StartsWithAmp(r, text);
    assert u[..|r|] == r && u[|r|..] == rest;
    RefExactly(u, text, |r|);
  }

  lemma StartsWithAmp(r: seq<byte>, text: seq<byte>)
    requires StandsFor(r, text)
    ensures r != [] && r[0] == AMP
  {
  }

  /** An ampersand that starts no reference stands for itself. */
  lemma ConvertLone(u: seq<byte>, lines: Lines)
    requires u != [] && u[0] == AMP && forall k: nat, text: seq<byte> :: k <= |u| ==> !StandsFor(u[..k], text)
    ensures Convert(u, lines, true) == [AMP] + Convert(u[1..], lines, true)
  {
    hide FrontRef, StandsFor;
    if FrontRef(u).Ref? {
      var r := FrontRef(u);
      RefExactly(u, r.text, r.length);
      assert false;
    }
    ConvertStep(u, lines, true);
  }

  /** Up to the next ampersand a text reads as it does where references mean nothing. */
  lemma {:induction false} ConvertUpTo(x: seq<byte>, y: seq<byte>, lines: Lines)
    requires AMP !in x && (y == [] || y[0] == AMP)
    ensures Convert(x + y, lines, true) == Convert(x, lines, false) + Convert(y, lines, true)
    decreases |x|
  {
    hide FrontRef, Convert;
    if x == [] {
      assert x + y == y;
      ConvertNothing(lines, false);
    } else {
      var n := Taken(x, lines, false);
      FrontSame(x, y, lines);
      ConvertFirst(x, lines, false);
      ConvertFirst(x + y, lines, true);
      assert (x + y)[n..] == x[n..] + y;
      ConvertUpTo(x[n..], y, lines);
    }
  }

  lemma ConvertNothing(lines: Lines, escapes: bool)
    ensures Convert([], lines, escapes) == []
  {
  }

  lemma ConvertFirst(t: seq<byte>, lines: Lines, escapes: bool)
    requires t != []
    ensures Convert(t, lines, escapes) ==
      Given(t, lines, escapes) + Convert(t[Taken(t, lines, escapes)..], lines, escapes)
  {
    hide FrontRef;
  }

  lemma FrontSame(x: seq<byte>, y: seq<byte>, lines: Lines)
    requires x != [] && AMP !in x && (y == [] || y[0] == AMP)
    ensures Taken(x + y, lines, true) == Taken(x, lines, false) && Given(x + y, lines, true) == Given(x, lines, false)
  {
    var t := x + y;
    assert t[0] == x[0] && x[0] in x && (|x| > 1 ==> t[1] == x[1]) && (|x| == 1 && y != [] ==> t[1] == y[0]);
    assert t[1..] == x[1..] + y;
    LeadingSame(x[1..], y);
  }

  lemma {:induction false} LeadingSame(x: seq<byte>, y: seq<byte>)
    requires y == [] || y[0] == AMP
    ensures LeadingSpace(x + y) == LeadingSpace(x)
    decreases |x|
  {
    if x == [] {
      assert x + y == y;
    } else {
      LeadingSame(x[1..], y);
      assert (x + y)[1..] == x[1..] + y && (x + y)[0] == x[0];
    }
  }

  // ---------- Line ends and white space ----------

  /** The bytes that go: a carriage return in front of a line feed, or white space in front of white space. */
  predicate Goes(c: byte, next: byte, lines: Lines) {
    match lines
    case Raw => false
    case Eol => c == CR && next == LF
    case Wconv => c == CR && next == LF
    case Wnorm => IsSpace(c) && IsSpace(next)
  }

  function Thinned(t: seq<byte>, lines: Lines): seq<byte> {
    if t == [] then []
    else (if |t| > 1 && Goes(t[0], t[1], lines) then [] else [t[0]]) + Thinned(t[1..], lines)
  }

  /** What becomes of each byte that stays. */
  function Turned(c: byte, lines: Lines): byte {
    match lines
    case Raw => c
    case Eol => if c == CR then LF else c
    case Wconv => if IsSpace(c) then SPACE else c
    case Wnorm => if IsSpace(c) then SPACE else c
  }

  function TurnedAll(t: seq<byte>, lines: Lines): (r: seq<byte>)
    ensures |r| == |t| && forall i :: 0 <= i < |t| ==> r[i] == Turned(t[i], lines)
  {
    seq(|t|, i requires 0 <= i < |t| => Turned(t[i], lines))
  }

  /**
   * Where references mean nothing, the conversion drops the bytes that go and turns the others: CR LF and CR
   * become LF, or every white space a space, or every run of white space a single one.
   */
  lemma {:induction false} ConvertIs(t: seq<byte>, lines: Lines)
    ensures Convert(t, lines, false) == TurnedAll(Thinned(t, lines), lines)
    decreases |t|
  {
    hide FrontRef, Convert, Thinned, TurnedAll;
    ThinnedCons(t, lines);
    if t == [] {
      ConvertNothing(lines, false);
      TurnedCons([], [], lines);
    } else {
      var n := Taken(t, lines, false);
      ConvertFirst(t, lines, false);
      ConvertIs(t[n..], lines);
      FrontThinned(t, lines);
    }
  }

  lemma ThinnedCons(t: seq<byte>, lines: Lines)
    ensures t == [] ==> Thinned(t, lines) == []
    ensures t != [] ==>
      Thinned(t, lines) == (if |t| > 1 && Goes(t[0], t[1], lines) then [] else [t[0]]) + Thinned(t[1..], lines)
  {
  }

  lemma TurnedCons(x: seq<byte>, y: seq<byte>, lines: Lines)
    ensures TurnedAll(x + y, lines) == TurnedAll(x, lines) + TurnedAll(y, lines)
    ensures TurnedAll([], lines) == []
  {
  }

  lemma TurnedOne(c: byte, y: seq<byte>, lines: Lines)
    ensures TurnedAll([c] + y, lines) == [Turned(c, lines)] + TurnedAll(y, lines)
  {
  }

  lemma FrontThinned(t: seq<byte>, lines: Lines)
    requires t != []
    ensures var n := Taken(t, lines, false);
      TurnedAll(Thinned(t, lines), lines) == Given(t, lines, false) + TurnedAll(Thinned(t[n..], lines), lines)
  {
    hide Thinned, TurnedAll, FrontRef;
    var n := Taken(t, lines, false);
    ThinnedCons(t, lines);
    if lines.Wnorm? && IsSpace(t[0]) {
      RunThinned(t, n);
      TurnedOne(t[n - 1], Thinned(t[n..], lines), lines);
    } else if n == 2 {
      ThinnedCons(t[1..], lines);
      assert t[1..][1..] == t[2..];
      TurnedOne(t[1], Thinned(t[2..], lines), lines);
    } else {
      TurnedOne(t[0], Thinned(t[1..], lines), lines);
    }
  }

  /** Of a run of white space the last byte stays. */
  lemma {:induction false} RunThinned(t: seq<byte>, n: nat)
    requires 1 <= n <= |t| && (forall i :: 0 <= i < n ==> IsSpace(t[i])) && (n < |t| ==> !IsSpace(t[n]))
    ensures Thinned(t, Wnorm) == [t[n - 1]] + Thinned(t[n..], Wnorm)
    decreases n
  {
    hide Thinned;
    ThinnedCons(t, Wnorm);
    if n > 1 {
      RunThinned(t[1..], n - 1);
      assert t[1..][n - 1..] == t[n..];
    }
  }
}
