/**
 * The parser with the default options as a function of a zero-terminated buffer b whose last byte was
 * saved in endch. Comments, processing instructions and the declaration are skipped; white space between
 * tags is dropped.
 */
module Parser {
  import opened Chars
  import opened Refs
  import opened StrConv
  import opened Dom

  datatype Status =
    | UnrecognizedTag | BadPi | BadComment | BadCdata | BadStartElement | BadAttribute | BadEndElement
    | EndElementMismatch | DoctypeNotModelled

  /** The node under construction with the chain of its parents. */
  datatype Cursor =
    | Doc(children: seq<Node>)
    | Open(name: seq<byte>, attrs: seq<Attr>, children: seq<Node>, parent: Cursor)

  function AddChild(c: Cursor, n: Node): Cursor {
    match c
    case Doc(children) => Doc(children + [n])
    case Open(name, attrs, children, parent) => Open(name, attrs, children + [n], parent)
  }

  function Pop(c: Cursor): Cursor
    requires c.Open?
  {
    AddChild(c.parent, Element(c.name, c.attrs, c.children))
  }

  datatype Step = Next(s: nat, cursor: Cursor) | Fail(status: Status, offset: nat)

  datatype Result = Parsed(nodes: seq<Node>) | Error(status: Status, offset: nat)

  predicate Terminated(b: seq<byte>) {
    |b| > 0 && b[|b| - 1] == NUL
  }

  function SkipWs(b: seq<byte>, s: nat): (p: nat)
    requires Terminated(b) && s < |b|
    ensures s <= p < |b| && !IsSpace(b[p]) && forall i :: s <= i < p ==> IsSpace(b[i])
    decreases |b| - s
  {
    if IsSpace(b[s]) then SkipWs(b, s + 1) else s
  }

  function SkipSymbols(b: seq<byte>, s: nat): (p: nat)
    requires Terminated(b) && s < |b|
    ensures s <= p < |b| && !IsSymbol(b[p]) && forall i :: s <= i < p ==> IsSymbol(b[i])
    decreases |b| - s
  {
    if IsSymbol(b[s]) then SkipSymbols(b, s + 1) else s
  }

  /** '<name' */
  function OpenTag(b: seq<byte>, s: nat, c: Cursor, endch: byte): (r: Step)
    requires Terminated(b) && s < |b| && IsStartSymbol(b[s])
    ensures r.Next? ==> s < r.s < |b|
  {
    var e := SkipSymbols(b, s);
    var started := Open(b[s..e], [], [], c);
    if b[e] == GT then Next(e + 1, started)
    else if IsSpace(b[e]) then Attributes(b, e + 1, started, endch)
    else if b[e] == SLASH then
      if EndsWith(b[e + 1], GT, endch) then Next(if b[e + 1] == GT then e + 2 else e + 1, Pop(started))
      else Fail(BadStartElement, e + 1)
    else if b[e] == NUL then
      if endch == GT then Next(e, started) else Fail(BadStartElement, e)
    else Fail(BadStartElement, e + 1)
  }

  /** The attributes of a start tag and its end. */
  function Attributes(b: seq<byte>, s: nat, c: Cursor, endch: byte): (r: Step)
    requires Terminated(b) && s < |b| && c.Open?
    ensures r.Next? ==> s <= r.s < |b|
    decreases |b| - s
  {
    var p := SkipWs(b, s);
    if IsStartSymbol(b[p]) then
      match Attribute(b, p, c)
      case Next(q, extended) => Attributes(b, q, extended, endch)
      case Fail(status, offset) => Fail(status, offset)
    else if b[p] == SLASH then
      if b[p + 1] == GT then Next(p + 2, Pop(c))
      else if b[p + 1] == NUL && endch == GT then Next(p + 1, Pop(c))
      else Fail(BadStartElement, p + 1)
    else if b[p] == GT then Next(p + 1, c)
    else if b[p] == NUL && endch == GT then Next(p, c)
    else Fail(BadStartElement, p)
  }

  /** name="value" with white space allowed around the equals sign. */
  function Attribute(b: seq<byte>, s: nat, c: Cursor): (r: Step)
    requires Terminated(b) && s < |b| && IsStartSymbol(b[s]) && c.Open?
    ensures r.Next? ==> s < r.s < |b| && r.cursor.Open?
  {
    var e := SkipSymbols(b, s);
    if b[e] == NUL then Fail(BadAttribute, e)
    else if b[e + 1] == NUL then Fail(BadAttribute, e + 1)
    else
      var p := if IsSpace(b[e]) then SkipWs(b, e + 1) else e;
      if b[p] == NUL then Fail(BadAttribute, p)
      else if b[p] != EQ then Fail(BadAttribute, p + 1)
      else AttributeValue(b, p + 1, c, b[s..e])
  }

  function AttributeValue(b: seq<byte>, s: nat, c: Cursor, name: seq<byte>): (r: Step)
    requires Terminated(b) && s < |b| && c.Open?
    ensures r.Next? ==> s < r.s < |b| && r.cursor.Open?
  {
    var q := SkipWs(b, s);
    if b[q] != QUOT && b[q] != APOS then Fail(BadAttribute, q) else QuotedValue(b, q + 1, b[q], c, name)
  }

  function QuotedValue(b: seq<byte>, v: nat, quote: byte, c: Cursor, name: seq<byte>): (r: Step)
    requires Terminated(b) && v < |b| && c.Open?
    ensures r.Next? ==> v < r.s < |b| && r.cursor.Open?
  {
    var e := ScanTo(b, v, quote);
    if b[e] == NUL then Fail(BadAttribute, v)
    else if IsStartSymbol(b[e + 1]) then Fail(BadAttribute, e + 1)
    else Next(e + 1, c.(attrs := c.attrs + [Attr(name, CStr(Convert(b[v..e], Wconv, true)))]))
  }

  /** How many bytes at the front of two texts agree. */
  function Common(x: seq<byte>, y: seq<byte>): (k: nat)
    ensures k <= |x| && k <= |y| && x[..k] == y[..k]
    ensures k < |x| && k < |y| ==> x[k] != y[k]
  {
    if x == [] || y == [] || x[0] != y[0] then 0 else 1 + Common(x[1..], y[1..])
  }

  /** '</name' */
  function EndTag(b: seq<byte>, s: nat, c: Cursor, endch: byte): (r: Step)
    requires Terminated(b) && s < |b|
    ensures r.Next? ==> s <= r.s < |b|
  {
    if c.Doc? then Fail(EndElementMismatch, s)
    else
      var e := SkipSymbols(b, s);
      var k := Common(b[s..e], c.name);
      if k < e - s then Fail(EndElementMismatch, s + k + 1)
      else if k < |c.name| then
        Fail(if b[e] == NUL && c.name[k..] == [endch] then BadEndElement else EndElementMismatch, e)
      else
        var p := SkipWs(b, e);
        if b[p] == NUL then
          if endch == GT then Next(p, Pop(c)) else Fail(BadEndElement, p)
        else if b[p] == GT then Next(p + 1, Pop(c))
        else Fail(BadEndElement, p)
  }

  /** The first "?>" from s on, its '>' possibly the replaced last byte. */
  function ScanQuestion(b: seq<byte>, s: nat, endch: byte): (q: nat)
    requires Terminated(b) && s < |b|
    ensures s <= q < |b| && (b[q] == NUL || (q + 1 < |b| && b[q] == QUESTION && EndsWith(b[q + 1], GT, endch)))
    ensures forall i :: s <= i < q ==> b[i] != NUL && !(b[i] == QUESTION && EndsWith(b[i + 1], GT, endch))
    decreases |b| - s
  {
    if b[s] == NUL || (b[s] == QUESTION && EndsWith(b[s + 1], GT, endch)) then s else ScanQuestion(b, s + 1, endch)
  }

  /** '<?...' is passed over. */
  function Question(b: seq<byte>, s: nat, c: Cursor, endch: byte): (r: Step)
    requires Terminated(b) && s + 1 < |b|
    ensures r.Next? ==> s < r.s < |b|
  {
    if !IsStartSymbol(b[s + 1]) then Fail(BadPi, s + 1)
    else
      var e := SkipSymbols(b, s + 1);
      if b[e] == NUL then Fail(BadPi, e)
      else
        var q := ScanQuestion(b, e, endch);
        if b[q] == NUL then Fail(BadPi, q)
        else Next(if b[q + 1] == GT then q + 2 else q + 1, c)
  }

  const CDATA_OPEN: seq<byte> := [67, 68, 65, 84, 65, LBRACKET]   // CDATA[
  const DOCTYP: seq<byte> := [68, 79, 67, 84, 89, 80]             // DOCTYP

  /** '<!...': a CDATA section or a comment. */
  function Exclamation(b: seq<byte>, s: nat, c: Cursor, endch: byte): (r: Step)
    requires Terminated(b) && s + 1 < |b|
    ensures r.Next? ==> s < r.s < |b|
  {
    var p := s + 1;
    if b[p] == DASH then
      if b[p + 1] != DASH then Fail(BadComment, p + 1)
      else
        var q := ScanSection(b, p + 2, DASH, endch);
        if b[q] == NUL then Fail(BadComment, q)
        else Next(if b[q + 2] == GT then q + 3 else q + 2, c)
    else if b[p] == LBRACKET then
      var k := Common(CDATA_OPEN, b[p + 1..]);
      if k < 6 then Fail(BadCdata, p + 1 + k)
      else
        var v := p + 7;
        var q := ScanSection(b, v, RBRACKET, endch);
        if b[q] == NUL then Fail(BadCdata, v)
        else Next(if b[q + 2] == GT then q + 3 else q + 2, AddChild(c, Cdata(CStr(Convert(b[v..q], Eol, false)))))
    else if DOCTYP <= b[p..] && EndsWith(b[p + 6], 69, endch) then Fail(DoctypeNotModelled, s)
    else if b[p] == NUL && endch == DASH then Fail(BadComment, p)
    else if b[p] == NUL && endch == LBRACKET then Fail(BadCdata, p)
    else Fail(UnrecognizedTag, p)
  }

  /** What follows '<'. */
  function Tag(b: seq<byte>, s: nat, c: Cursor, endch: byte): (r: Step)
    requires Terminated(b) && s < |b|
    ensures r.Next? ==> s < r.s < |b|
  {
    if IsStartSymbol(b[s]) then OpenTag(b, s, c, endch)
    else if b[s] == SLASH then EndTag(b, s + 1, c, endch)
    else if b[s] == QUESTION then Question(b, s, c, endch)
    else if b[s] == BANG then Exclamation(b, s, c, endch)
    else if b[s] == NUL && endch == QUESTION then Fail(BadPi, s)
    else Fail(UnrecognizedTag, s)
  }

  /** Text between tags: dropped when it is white space or stands outside the root element. */
  function Text(b: seq<byte>, s: nat, c: Cursor): (r: Step)
    requires Terminated(b) && s < |b| && b[s] != LT && b[s] != NUL
    ensures r.Next? ==> s < r.s < |b|
  {
    var p := SkipWs(b, s);
    var e := ScanTo(b, s, LT);
    if b[p] == LT || b[p] == NUL then Next(p, c)
    else if c.Doc? then Next(e, c)
    else if b[e] == NUL then Fail(EndElementMismatch, e)
    else if b[e + 1] == NUL then Fail(EndElementMismatch, e + 1)
    else Next(e, AddChild(c, Pcdata(CStr(Convert(b[s..e], Eol, true)))))
  }

  function Parse(b: seq<byte>, s: nat, c: Cursor, endch: byte): (r: Result)
    requires Terminated(b) && s < |b|
    decreases |b| - s
  {
    if b[s] == NUL then
      if c.Doc? then Parsed(c.children) else Error(EndElementMismatch, s)
    else
      match if b[s] == LT then Tag(b, s + 1, c, endch) else Text(b, s, c)
      case Next(next, cursor) => Parse(b, next, cursor, endch)
      case Fail(status, offset) => Error(status, offset)
  }

  /** The buffer with its last byte replaced by the terminating zero. */
  function Zeroed(input: seq<byte>): (b: seq<byte>)
    requires input != []
    ensures Terminated(b) && |b| == |input|
  {
    input[..|input| - 1] + [NUL]
  }

  function ParseBuffer(input: seq<byte>): Result {
    if input == [] then Parsed([])
    else
      var endch := input[|input| - 1];
      var r := Parse(Zeroed(input), 0, Doc([]), endch);
      if r.Parsed? && endch == LT then Error(UnrecognizedTag, |input|) else r
  }
}
