/**
 * The language the parser accepts, as a grammar of its own: what each piece of markup looks like in the
 * input and which nodes it stands for. An element writes its name twice, so the tags of a well formed text
 * are balanced.
 */
module Grammar {
  import opened Chars
  import opened Refs
  import opened Dom

  /** One attribute: white space in front, the name, white space around the equals sign, the quoted value. */
  datatype AttrSource =
    AttrSource(lead: seq<byte>, name: seq<byte>, before: seq<byte>, after: seq<byte>, quote: byte, raw: seq<byte>)

  datatype Piece =
    | Elem(name: seq<byte>, attrs: seq<AttrSource>, space: seq<byte>, inner: seq<Piece>, endSpace: seq<byte>)
    | EmptyElem(name: seq<byte>, attrs: seq<AttrSource>, space: seq<byte>)
    | CharData(text: seq<byte>)
    | Section(text: seq<byte>)
    | Remark(text: seq<byte>)
    | Instruction(text: seq<byte>)

  const SECTION_START: seq<byte> := [LT, BANG, LBRACKET, 67, 68, 65, 84, 65, LBRACKET]   // <![CDATA[
  const REMARK_START: seq<byte> := [LT, BANG, DASH, DASH]                                // <!--

  // ---------- How the pieces are written ----------

  /** The attribute without the white space in front. */
  function Assignment(a: AttrSource): seq<byte> {
    a.name + (a.before + ([EQ] + (a.after + ([a.quote] + (a.raw + [a.quote])))))
  }

  function AttrsWritten(attrs: seq<AttrSource>): seq<byte> {
    if attrs == [] then [] else attrs[0].lead + Assignment(attrs[0]) + AttrsWritten(attrs[1..])
  }

  /** '<name a="v"' up to the end of the tag, which is '>' or '/>'. */
  function TagWritten(name: seq<byte>, attrs: seq<AttrSource>, space: seq<byte>, end: seq<byte>): seq<byte> {
    [LT] + (name + (AttrsWritten(attrs) + (space + end)))
  }

  function EndWritten(name: seq<byte>, space: seq<byte>): seq<byte> {
    [LT, SLASH] + (name + (space + [GT]))
  }

  function Written(p: Piece): seq<byte>
    decreases p, 0
  {
    match p
    case Elem(name, attrs, space, inner, endSpace) =>
      TagWritten(name, attrs, space, [GT]) + (WrittenAll(inner) + EndWritten(name, endSpace))
    case EmptyElem(name, attrs, space) => TagWritten(name, attrs, space, [SLASH, GT])
    case CharData(text) => text
    case Section(text) => SECTION_START + (text + [RBRACKET, RBRACKET, GT])
    case Remark(text) => REMARK_START + (text + [DASH, DASH, GT])
    case Instruction(text) => [LT, QUESTION] + (text + [QUESTION, GT])
  }

  function WrittenAll(ps: seq<Piece>): seq<byte>
    decreases ps, 1
  {
    if ps == [] then [] else Written(ps[0]) + WrittenAll(ps[1..])
  }

  // ---------- Which pieces are well formed ----------

  predicate GoodAttr(a: AttrSource) {
    a.lead != [] && AllSpace(a.lead) && IsName(a.name) && AllSpace(a.before) && AllSpace(a.after) &&
    (a.quote == QUOT || a.quote == APOS) && a.quote !in a.raw && NUL !in a.raw
  }

  predicate GoodAttrs(attrs: seq<AttrSource>) {
    forall i :: 0 <= i < |attrs| ==> GoodAttr(attrs[i])
  }

  /** The mark, doubled, and '>' stand in the text at i. */
  predicate Closes(text: seq<byte>, mark: byte, i: nat) {
    i + 2 < |text| && text[i] == mark && text[i + 1] == mark && text[i + 2] == GT
  }

  /** The text holds neither a zero nor the end of the piece it stands in. */
  predicate Inside(text: seq<byte>, mark: byte) {
    NUL !in text && forall i :: 0 <= i < |text| ==> !Closes(text, mark, i)
  }

  predicate GoodInstruction(text: seq<byte>) {
    text != [] && IsStartSymbol(text[0]) && NUL !in text &&
    forall i :: 0 <= i < |text| - 1 ==> !(text[i] == QUESTION && text[i + 1] == GT)
  }

  predicate Good(p: Piece)
    decreases p, 0
  {
    match p
    case Elem(name, attrs, space, inner, endSpace) =>
      IsName(name) && GoodAttrs(attrs) && AllSpace(space) && GoodAll(inner) && AllSpace(endSpace)
    case EmptyElem(name, attrs, space) => IsName(name) && GoodAttrs(attrs) && AllSpace(space)
    case CharData(text) => text != [] && LT !in text && NUL !in text
    case Section(text) => Inside(text, RBRACKET)
    case Remark(text) => Inside(text, DASH)
    case Instruction(text) => GoodInstruction(text)
  }

  /** Text runs up to the next piece of markup. */
  predicate GoodAll(ps: seq<Piece>)
    decreases ps, 1
  {
    ps == [] || (Good(ps[0]) && GoodAll(ps[1..]) && (|ps| > 1 && ps[0].CharData? ==> !ps[1].CharData?))
  }

  // ---------- What they mean ----------

  function Meant(attrs: seq<AttrSource>): (r: seq<Attr>)
    ensures |r| == |attrs|
  {
    seq(|attrs|, i requires 0 <= i < |attrs| => Attr(attrs[i].name, CStr(Convert(attrs[i].raw, Wconv, true))))
  }

  /** Text counts only inside an element, and only when it is not all white space. */
  function Meaning(p: Piece, inside: bool): seq<Node>
    decreases p, 0
  {
    match p
    case Elem(name, attrs, _, inner, _) => [Element(name, Meant(attrs), MeaningAll(inner, true))]
    case EmptyElem(name, attrs, _) => [Element(name, Meant(attrs), [])]
    case CharData(text) => if inside && !AllSpace(text) then [Pcdata(CStr(Convert(text, Eol, true)))] else []
    case Section(text) => [Cdata(CStr(Convert(text, Eol, false)))]
    case Remark(_) => []
    case Instruction(_) => []
  }

  function MeaningAll(ps: seq<Piece>, inside: bool): seq<Node>
    decreases ps, 1
  {
    if ps == [] then [] else Meaning(ps[0], inside) + MeaningAll(ps[1..], inside)
  }

  // ---------- Lists of pieces ----------

  lemma WrittenCons(p: Piece, ps: seq<Piece>)
    ensures WrittenAll([p] + ps) == Written(p) + WrittenAll(ps)
    ensures forall inside :: MeaningAll([p] + ps, inside) == Meaning(p, inside) + MeaningAll(ps, inside)
  {
    hide Written, Meaning;
    assert ([p] + ps)[1..] == ps && ([p] + ps)[0] == p;
  }

  lemma GoodCons(p: Piece, ps: seq<Piece>)
    ensures GoodAll([p] + ps) <==> Good(p) && GoodAll(ps) && (ps != [] && p.CharData? ==> !ps[0].CharData?)
  {
    hide Good;
    assert ([p] + ps)[1..] == ps && ([p] + ps)[0] == p;
  }

  lemma NoPieces()
    ensures WrittenAll([]) == [] && GoodAll([]) && MeaningAll([], true) == [] && MeaningAll([], false) == []
  {
  }

  /** Markup starts with '<' and a byte that is no zero; text does not. */
  lemma FirstByte(p: Piece)
    requires Good(p)
    ensures Written(p) != [] && (Written(p)[0] == LT <==> !p.CharData?)
    ensures !p.CharData? ==> |Written(p)| > 2 && Written(p)[1] != NUL
  {
    hide AttrsWritten, WrittenAll, EndWritten, GoodAttrs, GoodAll;
    match p
    case Elem(name, _, _, _, _) => assert IsSymbol(name[0]);
    case EmptyElem(name, _, _) => assert IsSymbol(name[0]);
    case CharData(text) => assert text[0] in text;
    case Section(_) =>
    case Remark(_) =>
    case Instruction(text) => assert text[0] in text;
  }
}
