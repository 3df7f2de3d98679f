/** What the status and the offset of a parse error say about the input. */
module ParseErrors {
  import opened Chars
  import opened Refs
  import opened StrConv
  import opened Parser

  /** The statuses markup can fail with, by the byte behind its '<'. */
  predicate Blames(status: Status, c: byte, endch: byte) {
    match status
    case BadStartElement => IsStartSymbol(c)
    case BadAttribute => IsStartSymbol(c)
    case BadEndElement => c == SLASH
    case EndElementMismatch => c == SLASH
    case BadPi => c == QUESTION || (c == NUL && endch == QUESTION)
    case BadComment => c == BANG
    case BadCdata => c == BANG
    case DoctypeNotModelled => c == BANG
    case UnrecognizedTag => !IsStartSymbol(c) && c != SLASH && c != QUESTION
  }

  lemma AttributeFails(b: seq<byte>, s: nat, c: Cursor)
    requires Terminated(b) && s < |b| && IsStartSymbol(b[s]) && c.Open? && Attribute(b, s, c).Fail?
    ensures Attribute(b, s, c).status == BadAttribute && s < Attribute(b, s, c).offset <= |b|
  {
    hide Convert, CStr;
  }

  lemma {:induction false} AttributesFail(b: seq<byte>, s: nat, c: Cursor, endch: byte)
    requires Terminated(b) && s < |b| && c.Open? && Attributes(b, s, c, endch).Fail?
    ensures var r := Attributes(b, s, c, endch);
      (r.status == BadAttribute || r.status == BadStartElement) && s <= r.offset <= |b|
    decreases |b| - s
  {
    hide Attribute;
    var p := SkipWs(b, s);
    if IsStartSymbol(b[p]) {
      if Attribute(b, p, c).Next? {
        AttributesFail(b, Attribute(b, p, c).s, Attribute(b, p, c).cursor, endch);
      } else {
        AttributeFails(b, p, c);
      }
    }
  }

  lemma OpenTagFails(b: seq<byte>, s: nat, c: Cursor, endch: byte)
    requires Terminated(b) && s < |b| && IsStartSymbol(b[s]) && OpenTag(b, s, c, endch).Fail?
    ensures var r := OpenTag(b, s, c, endch);
      (r.status == BadAttribute || r.status == BadStartElement) && s <= r.offset <= |b|
  {
    hide Attributes, SkipSymbols;
    var e := SkipSymbols(b, s);
    if IsSpace(b[e]) {
      AttributesFail(b, e + 1, Open(b[s..e], [], [], c), endch);
    }
  }

  /** Markup that fails is blamed by its first bytes, and the error lies inside it. */
  lemma TagFails(b: seq<byte>, s: nat, c: Cursor, endch: byte)
    requires Terminated(b) && s < |b| && Tag(b, s, c, endch).Fail?
    ensures Blames(Tag(b, s, c, endch).status, b[s], endch) && s <= Tag(b, s, c, endch).offset <= |b|
  {
    hide OpenTag, SkipWs, SkipSymbols, ScanQuestion, ScanSection, Common, Convert, CStr;
    if IsStartSymbol(b[s]) {
      OpenTagFails(b, s, c, endch);
    }
  }

  /** Some markup of the input is to blame, or an element is left open. */
  predicate Blamed(b: seq<byte>, from: nat, to: nat, status: Status, endch: byte) {
    status == EndElementMismatch || exists p: nat :: from <= p && p + 1 < |b| && p < to && MarkupAt(b, p, status, endch)
  }

  predicate MarkupAt(b: seq<byte>, p: nat, status: Status, endch: byte) {
    p + 1 < |b| && b[p] == LT && Blames(status, b[p + 1], endch)
  }

  lemma {:induction false} ParseFails(b: seq<byte>, s: nat, c: Cursor, endch: byte)
    requires Terminated(b) && s < |b| && Parse(b, s, c, endch).Error?
    ensures var r := Parse(b, s, c, endch); s <= r.offset <= |b| && Blamed(b, s, r.offset, r.status, endch)
    decreases |b| - s
  {
    hide Tag, Text;
    if b[s] != NUL {
      if b[s] == LT {
        var r := Tag(b, s + 1, c, endch);
        if r.Next? {
          ParseFails(b, r.s, r.cursor, endch);
        } else {
          TagFails(b, s + 1, c, endch);
          assert MarkupAt(b, s, r.status, endch);
        }
      } else {
        var r := Text(b, s, c);
        if r.Next? {
          ParseFails(b, r.s, r.cursor, endch);
        } else {
          TextFails(b, s, c);
        }
      }
    }
  }

  lemma TextFails(b: seq<byte>, s: nat, c: Cursor)
    requires Terminated(b) && s < |b| && b[s] != LT && b[s] != NUL && Text(b, s, c).Fail?
    ensures Text(b, s, c).status == EndElementMismatch && s <= Text(b, s, c).offset < |b|
  {
    hide Convert, CStr;
  }

  /**
   * Every error lies within the input, and its status names the kind of markup that is to blame and stands
   * before the offset; only a mismatch may also mean an element that is left open.
   */
  lemma ErrorsTell(input: seq<byte>)
    requires ParseBuffer(input).Error?
    ensures input != []
    ensures var r, b, endch := ParseBuffer(input), Zeroed(input), input[|input| - 1];
      r.offset <= |input| && (Blamed(b, 0, r.offset, r.status, endch) || (r.status == UnrecognizedTag && endch == LT))
  {
    hide Parse;
    var b, endch := Zeroed(input), input[|input| - 1];
    if Parse(b, 0, Doc([]), endch).Error? {
      ParseFails(b, 0, Doc([]), endch);
    }
  }
}
