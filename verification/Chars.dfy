/** Bytes, the character classes of the parser and printer tables, and zero-terminated strings. */
module Chars {

  type byte = b: int | 0 <= b < 256

  const NUL: byte := 0
  const TAB: byte := 9
  const LF: byte := 10
  const CR: byte := 13
  const SPACE: byte := 32
  const BANG: byte := 33
  const QUOT: byte := 34
  const HASH: byte := 35
  const AMP: byte := 38
  const APOS: byte := 39
  const DASH: byte := 45
  const SLASH: byte := 47
  const ZERO: byte := 48
  const SEMI: byte := 59
  const LT: byte := 60
  const EQ: byte := 61
  const GT: byte := 62
  const QUESTION: byte := 63
  const LBRACKET: byte := 91
  const RBRACKET: byte := 93

  /** ct_space */
  predicate IsSpace(c: byte) {
    c == TAB || c == LF || c == CR || c == SPACE
  }

  /** ct_start_symbol: any byte above 127, a letter, '_' or ':' */
  predicate IsStartSymbol(c: byte) {
    c >= 128 || 65 <= c <= 90 || 97 <= c <= 122 || c == 95 || c == 58
  }

  /** ct_symbol: a start symbol, a digit, '-' or '.' */
  predicate IsSymbol(c: byte) {
    IsStartSymbol(c) || 48 <= c <= 57 || c == DASH || c == 46
  }

  /** ctx_special_pcdata: control bytes other than tab, CR and LF, and the markup bytes */
  predicate IsSpecialPcdata(c: byte) {
    (c < 32 && c != TAB && c != LF && c != CR) || c == AMP || c == LT || c == GT
  }

  /** ctx_special_attr: control bytes other than tab, and the markup bytes with the double quote */
  predicate IsSpecialAttr(c: byte) {
    (c < 32 && c != TAB) || c == AMP || c == LT || c == GT || c == QUOT
  }

  /** A name the parser reads back whole. */
  predicate IsName(name: seq<byte>) {
    |name| > 0 && IsStartSymbol(name[0]) && forall i :: 0 <= i < |name| ==> IsSymbol(name[i])
  }

  predicate AllSpace(s: seq<byte>) {
    forall i :: 0 <= i < |s| ==> IsSpace(s[i])
  }

  /** The string a C caller sees: everything before the first zero byte. */
  function CStr(s: seq<byte>): (r: seq<byte>)
    ensures r <= s
    ensures NUL !in r
    ensures r == s || (|r| < |s| && s[|r|] == NUL)
  {
    if s == [] || s[0] == NUL then [] else [s[0]] + CStr(s[1..])
  }

  lemma {:induction false} CStrId(s: seq<byte>)
    requires NUL !in s
    ensures CStr(s) == s
  {
    if s != [] {
      CStrId(s[1..]);
    }
  }

  /** A zero-terminated text is read back up to its terminator, whatever follows. */
  lemma {:induction false} CStrOfTerminated(a: seq<byte>, rest: seq<byte>)
    ensures CStr(a + [NUL] + rest) == CStr(a)
  {
    if a == [] {
      assert (a + [NUL] + rest)[0] == NUL;
    } else if a[0] == NUL {
    } else {
      CStrOfTerminated(a[1..], rest);
      assert (a + [NUL] + rest)[1..] == a[1..] + [NUL] + rest;
    }
  }
}
