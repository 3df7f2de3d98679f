/** What the text of an element, attribute or CDATA section becomes when it is read. */
module Refs {
  import opened Chars
  import opened Utf

  /** A reference at the front of a text: the bytes it stands for and the bytes it occupies. */
  datatype Ref = NoRef | Ref(text: seq<byte>, length: nat)

  predicate IsDigit(c: byte, hex: bool) {
    48 <= c <= 57 || (hex && (65 <= c <= 70 || 97 <= c <= 102))
  }

  function DigitValue(c: byte): (v: nat)
    requires IsDigit(c, true)
  {
    if c <= 57 then c - 48 else if c <= 70 then c - 55 else c - 87
  }

  function DigitCount(u: seq<byte>, hex: bool): (n: nat)
    ensures n <= |u| && (forall i :: 0 <= i < n ==> IsDigit(u[i], hex))
    ensures n < |u| ==> !IsDigit(u[n], hex)
  {
    if u == [] || !IsDigit(u[0], hex) then 0 else 1 + DigitCount(u[1..], hex)
  }

  /** The value of a digit string in a 32-bit unsigned accumulator, which wraps. */
  function Accumulate(digits: seq<byte>, hex: bool, value: unit32): unit32
    requires forall i :: 0 <= i < |digits| ==> IsDigit(digits[i], hex)
  {
    if digits == [] then value
    else Accumulate(digits[1..], hex, AddDigit(value, digits[0], hex))
  }

  function AddDigit(value: unit32, c: byte, hex: bool): unit32
    requires IsDigit(c, hex)
  {
    ((if hex then 16 else 10) * value as int + DigitValue(c)) % 0x1_0000_0000
  }

  /** Digits and a semicolon at the front of u, after a prefix such as "&#". */
  function CharRef(u: seq<byte>, hex: bool, prefix: nat): (r: Ref)
    requires prefix >= 2
    ensures r.Ref? ==> prefix + 2 <= r.length <= prefix + |u| && 1 <= |r.text| <= 4 && |r.text| < r.length
  {
    var n := DigitCount(u, hex);
    assert n == 1 ==> Accumulate(u[..1], hex, 0) == AddDigit(0, u[0], hex);
    if 0 < n < |u| && u[n] == SEMI then Ref(Utf8Any(Accumulate(u[..n], hex, 0)), prefix + n + 1) else NoRef
  }

  const AMP_TAIL: seq<byte> := [97, 109, 112, SEMI]          // amp;
  const APOS_TAIL: seq<byte> := [97, 112, 111, 115, SEMI]    // apos;
  const GT_TAIL: seq<byte> := [103, 116, SEMI]               // gt;
  const LT_TAIL: seq<byte> := [108, 116, SEMI]               // lt;
  const QUOT_TAIL: seq<byte> := [113, 117, 111, 116, SEMI]   // quot;

  /** The reference at the front of a text that starts with an ampersand. */
  function FrontRef(u: seq<byte>): (r: Ref)
    requires u != [] && u[0] == AMP
    ensures r.Ref? ==> 4 <= r.length <= |u| && 1 <= |r.text| <= 4 && |r.text| < r.length
  {
    if |u| >= 2 && u[1] == HASH then
      (if |u| >= 3 && u[2] == 120 then CharRef(u[3..], true, 3) else CharRef(u[2..], false, 2))
    else if AMP_TAIL <= u[1..] then Ref([AMP], 5)
    else if APOS_TAIL <= u[1..] then Ref([APOS], 6)
    else if GT_TAIL <= u[1..] then Ref([GT], 4)
    else if LT_TAIL <= u[1..] then Ref([LT], 4)
    else if QUOT_TAIL <= u[1..] then Ref([QUOT], 6)
    else NoRef
  }

  /** Bytes a reference is made of, apart from its ampersand. */
  predicate IsRefByte(c: byte) {
    c == HASH || c == SEMI || 48 <= c <= 57 || 65 <= c <= 90 || 97 <= c <= 122
  }

  lemma {:induction false} DigitCountPrefix(t: seq<byte>, u: seq<byte>, hex: bool)
    requires t < u && !IsDigit(u[|t|], hex)
    ensures DigitCount(t, hex) == DigitCount(u, hex)
  {
    if t != [] && IsDigit(t[0], hex) {
      DigitCountPrefix(t[1..], u[1..], hex);
    }
  }

  lemma CharRefPrefix(t: seq<byte>, u: seq<byte>, hex: bool, prefix: nat)
    requires prefix >= 2 && t < u && !IsRefByte(u[|t|])
    ensures CharRef(t, hex, prefix) == CharRef(u, hex, prefix)
  {
    DigitCountPrefix(t, u, hex);
    var n := DigitCount(t, hex);
    assert t[..n] == u[..n];
    assert n < |t| ==> t[n] == u[n];
  }

  lemma NamedPrefix(name: seq<byte>, t: seq<byte>, u: seq<byte>)
    requires t < u && !IsRefByte(u[|t|])
    requires forall i :: 0 <= i < |name| ==> IsRefByte(name[i])
    ensures name <= t <==> name <= u
  {
    if name <= u {
      assert forall i :: 0 <= i < |name| ==> name[i] == u[i];
    }
  }

  /** A reference never reaches past a byte that is not part of one, such as a terminator. */
  lemma RefWithin(t: seq<byte>, u: seq<byte>)
    requires t != [] && t[0] == AMP
    requires t < u && !IsRefByte(u[|t|])
    ensures FrontRef(t) == FrontRef(u)
  {
    hide CharRef;
    if |t| >= 2 {
      assert t[1] == u[1];
      if t[1] == HASH {
        if |t| >= 3 {
          assert t[2] == u[2];
          CharRefPrefix(t[3..], u[3..], true, 3);
        }
        CharRefPrefix(t[2..], u[2..], false, 2);
      }
    }
    NamedPrefix(AMP_TAIL, t[1..], u[1..]);
    NamedPrefix(APOS_TAIL, t[1..], u[1..]);
    NamedPrefix(GT_TAIL, t[1..], u[1..]);
    NamedPrefix(LT_TAIL, t[1..], u[1..]);
    NamedPrefix(QUOT_TAIL, t[1..], u[1..]);
  }

  function LeadingSpace(t: seq<byte>): (n: nat)
    ensures n <= |t| && AllSpace(t[..n]) && (n < |t| ==> !IsSpace(t[n]))
  {
    if t == [] || !IsSpace(t[0]) then 0 else 1 + LeadingSpace(t[1..])
  }

  function TrimLeft(t: seq<byte>): (r: seq<byte>)
    ensures |r| <= |t|
  {
    t[LeadingSpace(t)..]
  }

  /** The length of t without its trailing white space. */
  function TrimmedLength(t: seq<byte>): (n: nat)
    ensures n <= |t| && AllSpace(t[n..]) && (n > 0 ==> !IsSpace(t[n - 1]))
  {
    if t == [] || !IsSpace(t[|t| - 1]) then |t| else TrimmedLength(t[..|t| - 1])
  }

  function TrimRight(t: seq<byte>): (r: seq<byte>)
    ensures |r| <= |t|
  {
    t[..TrimmedLength(t)]
  }

  /**
   * Raw: white space kept. Eol: CR LF and CR become LF. Wconv: every white space becomes a space, CR LF
   * a single one. Wnorm: every run of white space becomes one space.
   */
  datatype Lines = Raw | Eol | Wconv | Wnorm

  predicate IsPlain(c: byte, lines: Lines, escapes: bool) {
    (escapes ==> c != AMP) && (lines.Eol? ==> c != CR) && (lines.Wconv? ==> !IsSpace(c) || c == SPACE) &&
        (lines.Wnorm? ==> !IsSpace(c))
  }

  /** Bytes taken at the front of t in one step of the conversion. */
  function Taken(t: seq<byte>, lines: Lines, escapes: bool): (n: nat)
    requires t != []
    ensures 1 <= n <= |t|
  {
    if lines.Wnorm? && IsSpace(t[0]) then 1 + LeadingSpace(t[1..])
    else if !lines.Raw? && t[0] == CR then (if |t| > 1 && t[1] == LF then 2 else 1)
    else if escapes && t[0] == AMP && FrontRef(t).Ref? then FrontRef(t).length
    else 1
  }

  /** What that step leaves. */
  function Given(t: seq<byte>, lines: Lines, escapes: bool): (r: seq<byte>)
    requires t != []
    ensures |r| <= Taken(t, lines, escapes)
  {
    if lines.Eol? && t[0] == CR then [LF]
    else if (lines.Wconv? || lines.Wnorm?) && IsSpace(t[0]) then [SPACE]
    else if escapes && t[0] == AMP && FrontRef(t).Ref? then FrontRef(t).text
    else [t[0]]
  }

  /** Line ends normalised and references expanded; a malformed reference is kept as it stands. */
  function Convert(t: seq<byte>, lines: Lines, escapes: bool): (r: seq<byte>)
    ensures |r| <= |t|
  {
    if t == [] then []
    else Given(t, lines, escapes) + Convert(t[Taken(t, lines, escapes)..], lines, escapes)
  }

  lemma Regroup(t: seq<byte>, k: nat, rest: seq<byte>)
    requires 1 <= k <= |t|
    ensures [t[0]] + (t[1..][..k - 1] + rest) == t[..k] + rest
    ensures t[1..][k - 1..] == t[k..]
  {
  }

  lemma ConvertStep(t: seq<byte>, lines: Lines, escapes: bool)
    requires t != [] && (IsPlain(t[0], lines, escapes) || (escapes && t[0] == AMP && FrontRef(t).NoRef?))
    ensures Convert(t, lines, escapes) == [t[0]] + Convert(t[1..], lines, escapes)
  {
  }

  lemma {:induction false} ConvertPlainRun(t: seq<byte>, k: nat, lines: Lines, escapes: bool)
    requires k <= |t|
    requires forall i :: 0 <= i < k ==> IsPlain(t[i], lines, escapes)
    ensures Convert(t, lines, escapes) == t[..k] + Convert(t[k..], lines, escapes)
  {
    hide FrontRef, Convert;
    if k == 0 {
      assert t[0..] == t;
    } else {
      ConvertStep(t, lines, escapes);
      var rest := t[1..];
      ConvertPlainRun(rest, k - 1, lines, escapes);
      Regroup(t, k, Convert(t[k..], lines, escapes));
    }
  }

  /** After an ampersand that starts no reference, the bytes the scan has looked at stand for themselves. */
  lemma ConvertNoRef(t: seq<byte>, k: nat, lines: Lines)
    requires 1 <= k <= |t| && t[0] == AMP && FrontRef(t).NoRef?
    requires forall i :: 1 <= i < k ==> IsRefByte(t[i])
    ensures Convert(t, lines, true) == t[..k] + Convert(t[k..], lines, true)
  {
    hide FrontRef, Convert;
    ConvertStep(t, lines, true);
    var rest := t[1..];
    ConvertPlainRun(rest, k - 1, lines, true);
    Regroup(t, k, Convert(t[k..], lines, true));
  }

  /** Attribute value normalisation of a non-CDATA attribute (section 3.3.3 of XML 1.0). */
  function WhiteNormal(t: seq<byte>, escapes: bool): (r: seq<byte>)
    ensures |r| <= |t|
  {
    TrimRight(Convert(TrimLeft(t), Wnorm, escapes))
  }
}
