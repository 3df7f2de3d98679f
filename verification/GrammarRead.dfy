/**
 * Whatever is written in the grammar is accepted, with the nodes it means: so the parser accepts exactly the
 * grammar.
 */
module GrammarRead {
  import opened Chars
  import opened Refs
  import opened StrConv
  import opened Dom
  import opened Parser
  import opened TagTrip
  import opened Grammar
  import opened GrammarSound

  /** A position of the source in the buffer: behind the replaced last byte there is none. */
  function Pos(z: nat, e: nat): nat {
    if e <= z then e else z
  }

  /** What stands in the source stands in the buffer, except for the last byte. */
  lemma StandsInBuffer(b: seq<byte>, z: nat, endch: byte, s: nat, x: seq<byte>)
    requires z < |b| && StandsAt(Source(b, z, endch), s, x) && s + |x| <= z
    ensures StandsAt(b, s, x)
  {
    assert b[s..s + |x|] == Source(b, z, endch)[s..s + |x|];
  }

  lemma SpaceStands(b: seq<byte>, s: nat, x: seq<byte>)
    requires Terminated(b) && StandsAt(b, s, x) && AllSpace(x) && s + |x| < |b| && !IsSpace(b[s + |x|])
    ensures SkipWs(b, s) == s + |x|
    ensures x != [] ==> IsSpace(b[s])
    ensures x != [] ==> SkipWs(b, s + 1) == s + |x|
  {
    AtByte(b, s, x);
    forall i | s <= i < s + |x|
      ensures IsSpace(b[i])
    {
      assert b[i] == x[i - s];
    }
    SkipWsIs(b, s, s + |x|);
    if x != [] {
      SkipWsIs(b, s + 1, s + |x|);
    }
  }

  // ---------- Attributes ----------

  /** Where the parts of an attribute stand. */
  lemma AssignmentStands(b: seq<byte>, p: nat, a: AttrSource)
    requires StandsAt(b, p, Assignment(a))
    ensures var e := p + |a.name|;
      var eq := e + |a.before|;
      var at := eq + 1 + |a.after|;
      var end := at + 1 + |a.raw|;
      StandsAt(b, p, a.name) && StandsAt(b, e, a.before) && eq < |b| && b[eq] == EQ && StandsAt(b, eq + 1, a.after) &&
      at < |b| && b[at] == a.quote && StandsAt(b, at + 1, a.raw) && end < |b| && b[end] == a.quote &&
      p + |Assignment(a)| == end + 1
  {
    hide StandsAt;
    var value := [a.quote] + (a.raw + [a.quote]);
    SidesStand(b, p, a.name, a.before, EQ, a.after + value);
    ValueStands(b, p + |a.name| + |a.before| + 1, a.after, a.quote, a.raw);
  }

  /** Two texts, a byte, and the rest. */
  lemma SidesStand(b: seq<byte>, p: nat, x: seq<byte>, y: seq<byte>, c: byte, rest: seq<byte>)
    requires StandsAt(b, p, x + (y + ([c] + rest)))
    ensures StandsAt(b, p, x) && StandsAt(b, p + |x|, y)
    ensures var q := p + |x| + |y|; q < |b| && b[q] == c && StandsAt(b, q + 1, rest)
  {
    hide StandsAt;
    AtConcat(b, p, x, y + ([c] + rest));
    AtConcat(b, p + |x|, y, [c] + rest);
    AtHead(b, p + |x| + |y|, c, rest);
  }

  lemma ValueStands(b: seq<byte>, p: nat, after: seq<byte>, quote: byte, raw: seq<byte>)
    requires StandsAt(b, p, after + ([quote] + (raw + [quote])))
    ensures var at := p + |after|;
      var end := at + 1 + |raw|;
      StandsAt(b, p, after) && at < |b| && b[at] == quote && StandsAt(b, at + 1, raw) && end < |b| && b[end] == quote
  {
    hide StandsAt;
    AtConcat(b, p, after, [quote] + (raw + [quote]));
    AtHead(b, p + |after|, quote, raw + [quote]);
    AtConcat(b, p + |after| + 1, raw, [quote]);
    LastStands(b, p + |after| + 1 + |raw|, quote);
  }

  lemma LastStands(b: seq<byte>, s: nat, c: byte)
    requires StandsAt(b, s, [c])
    ensures s < |b| && b[s] == c
  {
    assert b[s..s + 1][0] == b[s];
  }

  lemma ValueRead(b: seq<byte>, v: nat, raw: seq<byte>, quote: byte, c: Cursor, name: seq<byte>)
    requires Terminated(b) && c.Open? && StandsAt(b, v, raw) && quote !in raw && NUL !in raw && quote != NUL
    requires v + |raw| + 1 < |b| && b[v + |raw|] == quote && !IsStartSymbol(b[v + |raw| + 1])
    ensures QuotedValue(b, v, quote, c, name)
         == Next(v + |raw| + 1, c.(attrs := c.attrs + [Attr(name, CStr(Convert(raw, Wconv, true)))]))
  {
    hide Convert, CStr, ScanTo, StandsAt, QuotedValue, IsStartSymbol;
    ScanOver(b, v, raw, quote);
    Slice(b, v, raw);
    QuotedIs(b, v, v + |raw|, quote, c, name);
  }

  lemma QuotedIs(b: seq<byte>, v: nat, e: nat, quote: byte, c: Cursor, name: seq<byte>)
    requires Terminated(b) && c.Open? && v <= e && e + 1 < |b| && ScanTo(b, v, quote) == e && b[e] == quote != NUL
    requires !IsStartSymbol(b[e + 1])
    ensures QuotedValue(b, v, quote, c, name)
         == Next(e + 1, c.(attrs := c.attrs + [Attr(name, CStr(Convert(b[v..e], Wconv, true)))]))
  {
    hide Convert, CStr, ScanTo, IsStartSymbol;
  }

  lemma AttributeRead(b: seq<byte>, p: nat, a: AttrSource, c: Cursor)
    requires Terminated(b) && c.Open? && GoodAttr(a) && StandsAt(b, p, Assignment(a))
    requires p + |Assignment(a)| < |b| && !IsStartSymbol(b[p + |Assignment(a)|])
    ensures p < |b| && IsStartSymbol(b[p])
    ensures Attribute(b, p, c)
         == Next(p + |Assignment(a)|, c.(attrs := c.attrs + [Attr(a.name, CStr(Convert(a.raw, Wconv, true)))]))
  {
    hide Convert, CStr, QuotedValue, Assignment, StandsAt, Attribute, SkipSymbols, SkipWs, IsStartSymbol;
    AssignmentStands(b, p, a);
    var e := p + |a.name|;
    var eq := e + |a.before|;
    var at := eq + 1 + |a.after|;
    NameThere(b, p, a.name, a.before, eq);
    BlankThere(b, e, a.before, eq);
    BlankThere(b, eq + 1, a.after, at);
    ValueRead(b, at + 1, a.raw, a.quote, c, a.name);
    NextNotNul(b, e, a, eq, at);
    AttributeThere(b, p, e, eq, at, c);
    Slice(b, p, a.name);
  }

  lemma NameThere(b: seq<byte>, p: nat, name: seq<byte>, before: seq<byte>, eq: nat)
    requires Terminated(b) && IsName(name) && AllSpace(before) && StandsAt(b, p, name) &&
      StandsAt(b, p + |name|, before)
    requires eq == p + |name| + |before| && eq < |b| && b[eq] == EQ
    ensures p < |b| && IsStartSymbol(b[p]) && SkipSymbols(b, p) == p + |name|
  {
    hide StandsAt, IsName;
    var e := p + |name|;
    AtByte(b, e, before);
    assert before != [] ==> b[e + 0] == before[0];
    NameScanned(b, p, name);
  }

  lemma BlankThere(b: seq<byte>, s: nat, x: seq<byte>, e: nat)
    requires Terminated(b) && AllSpace(x) && StandsAt(b, s, x) && e == s + |x| && e < |b|
    requires b[e] == EQ || b[e] == QUOT || b[e] == APOS || b[e] == GT || b[e] == SLASH || b[e] == NUL
    ensures SkipWs(b, s) == e && (x != [] ==> s + 1 < |b| && IsSpace(b[s]) && SkipWs(b, s + 1) == e)
    ensures x == [] ==> !IsSpace(b[s])
  {
    hide StandsAt, SkipWs, AllSpace;
    SpaceStands(b, s, x);
  }

  lemma NextNotNul(b: seq<byte>, e: nat, a: AttrSource, eq: nat, at: nat)
    requires GoodAttr(a) && StandsAt(b, e, a.before) && eq == e + |a.before| < |b| && b[eq] == EQ
    requires StandsAt(b, eq + 1, a.after) && at == eq + 1 + |a.after| < |b| && b[at] == a.quote
    ensures b[e] != NUL && b[e + 1] != NUL
  {
    hide StandsAt;
    AtByte(b, e, a.before);
    AtByte(b, eq + 1, a.after);
    assert a.before != [] ==> b[e + 0] == a.before[0];
    assert |a.before| > 1 ==> b[e + 1] == a.before[1];
    assert a.after != [] ==> b[eq + 1 + 0] == a.after[0];
  }

  lemma AttributeThere(b: seq<byte>, p: nat, e: nat, eq: nat, at: nat, c: Cursor)
    requires Terminated(b) && c.Open? && p < e <= eq < at && at + 1 < |b| && IsStartSymbol(b[p]) &&
      SkipSymbols(b, p) == e
    requires b[e] != NUL && b[e + 1] != NUL && b[eq] == EQ &&
      (if e < eq then IsSpace(b[e]) && SkipWs(b, e + 1) == eq else e == eq)
    requires SkipWs(b, eq + 1) == at && (b[at] == QUOT || b[at] == APOS)
    ensures Attribute(b, p, c) == QuotedValue(b, at + 1, b[at], c, b[p..e])
  {
    hide QuotedValue, SkipWs, SkipSymbols, IsStartSymbol;
    assert e == eq ==> !IsSpace(b[e]);
  }

  /** A start tag from behind its name on. */
  lemma {:induction false} AttributesRead(b: seq<byte>, z: nat, endch: byte, s: nat, c: Cursor, attrs: seq<AttrSource>,
      space: seq<byte>, empty: bool)
    requires Bounded(b, z) && c.Open? && GoodAttrs(attrs) && AllSpace(space)
    requires StandsAt(Source(b, z, endch), s, AttrsWritten(attrs) + (space + TagEnd(empty)))
    ensures s <= z && !IsSymbol(b[s])
    ensures Attributes(b, s, c, endch)
         == Next(Pos(z, s + |AttrsWritten(attrs) + (space + TagEnd(empty))|), Entered(c, Meant(attrs), empty))
    decreases |attrs|
  {
    hide Attributes, Attribute, StandsAt, Source, Assignment, Entered, Meant, AttrsWritten, GoodAttrs, SkipWs, IsSymbol,
        IsStartSymbol, AllSpace, Bounded, Pos, Convert, CStr, TagEnd;
    BoundedIs(b, z);
    var tail := space + TagEnd(empty);
    if attrs == [] {
      AttrsWrittenCons(attrs, tail);
      TagEndRead(b, z, endch, s, c, space, empty);
    } else {
      var a, rest := attrs[0], attrs[1..];
      TailFirst(space, empty);
      GoodRest(attrs);
      FirstAttribute(b, z, endch, s, c, attrs, tail);
      var p := s + |a.lead|;
      var q := p + |Assignment(a)|;
      var c1 := c.(attrs := c.attrs + [Attr(a.name, CStr(Convert(a.raw, Wconv, true)))]);
      AttributesRead(b, z, endch, q, c1, rest, space, empty);
      AttributesGoOn(b, s, c, endch, p);
      EnteredCons(c, a, rest, empty);
      assert [a] + rest == attrs;
    }
  }

  lemma BoundedIs(b: seq<byte>, z: nat)
    requires Bounded(b, z)
    ensures Terminated(b) && z < |b| && b[z] == NUL
  {
  }

  lemma GoodRest(attrs: seq<AttrSource>)
    requires GoodAttrs(attrs) && attrs != []
    ensures GoodAttrs(attrs[1..])
  {
    hide GoodAttr;
  }

  lemma TailFirst(space: seq<byte>, empty: bool)
    requires AllSpace(space)
    ensures var tail := space + TagEnd(empty); tail != [] && (IsSpace(tail[0]) || tail[0] == GT || tail[0] == SLASH)
  {
  }

  /** The first of the attributes is read, and what is left of the tag stands behind it. */
  /** Attribute a stands at s, and behind it the other attributes and the end of the tag. */
  predicate Leading(b: seq<byte>, z: nat, endch: byte, s: nat, c: Cursor, a: AttrSource, rest: seq<AttrSource>,
      tail: seq<byte>)
    requires Terminated(b) && z < |b| && c.Open?
  {
    var p := s + |a.lead|;
    var q := p + |Assignment(a)|;
    s <= p < q <= z && !IsSymbol(b[s]) && SkipWs(b, s) == p && IsStartSymbol(b[p]) &&
    Attribute(b, p, c) == Next(q, c.(attrs := c.attrs + [Attr(a.name, CStr(Convert(a.raw, Wconv, true)))])) &&
    StandsAt(Source(b, z, endch), q, AttrsWritten(rest) + tail)
  }

  lemma FirstAttribute(b: seq<byte>, z: nat, endch: byte, s: nat, c: Cursor, attrs: seq<AttrSource>, tail: seq<byte>)
    requires Bounded(b, z) && c.Open? && GoodAttrs(attrs) && attrs != []
    requires tail != [] && (IsSpace(tail[0]) || tail[0] == GT || tail[0] == SLASH)
    requires StandsAt(Source(b, z, endch), s, AttrsWritten(attrs) + tail)
    ensures Leading(b, z, endch, s, c, attrs[0], attrs[1..], tail)
    ensures |AttrsWritten(attrs) + tail|
         == |attrs[0].lead| + |Assignment(attrs[0])| + |AttrsWritten(attrs[1..]) + tail|
  {
    hide Attribute, StandsAt, Source, Assignment, AttrsWritten, GoodAttr, SkipWs, IsSymbol, IsStartSymbol, Convert,
        CStr;
    var w := Source(b, z, endch);
    var a, rest := attrs[0], attrs[1..];
    var more := AttrsWritten(rest) + tail;
    var p := s + |a.lead|;
    var q := p + |Assignment(a)|;
    AttrsWrittenCons(attrs, tail);
    AtConcat(w, s, a.lead, Assignment(a) + more);
    AtConcat(w, p, Assignment(a), more);
    BehindValue(b, z, endch, q, rest, tail);
    LeadIs(a);
    StandsInBuffer(b, z, endch, s, a.lead);
    StandsInBuffer(b, z, endch, p, Assignment(a));
    AttributeRead(b, p, a, c);
    LeadRead(b, s, a.lead, p);
  }

  lemma AttrsWrittenCons(attrs: seq<AttrSource>, tail: seq<byte>)
    ensures attrs == [] ==> AttrsWritten(attrs) + tail == tail
    ensures attrs != [] ==>
      AttrsWritten(attrs) + tail == attrs[0].lead + (Assignment(attrs[0]) + (AttrsWritten(attrs[1..]) + tail))
  {
    hide Assignment;
  }

  /** What follows an attribute is white space or the end of the tag. */
  lemma BehindValue(b: seq<byte>, z: nat, endch: byte, q: nat, rest: seq<AttrSource>, tail: seq<byte>)
    requires Bounded(b, z) && GoodAttrs(rest) && StandsAt(Source(b, z, endch), q, AttrsWritten(rest) + tail)
    requires tail != [] && (IsSpace(tail[0]) || tail[0] == GT || tail[0] == SLASH)
    ensures q <= z && !IsStartSymbol(b[q]) && !IsSymbol(b[q])
  {
    hide Assignment;
    var w := Source(b, z, endch);
    var x := AttrsWritten(rest) + tail;
    AtByte(w, q, x);
    assert w[q + 0] == x[0];
    if rest != [] {
      assert x[0] == rest[0].lead[0];
    }
    assert IsSpace(x[0]) || x[0] == GT || x[0] == SLASH;
  }

  lemma LeadRead(b: seq<byte>, s: nat, lead: seq<byte>, p: nat)
    requires Terminated(b) && AllSpace(lead) && lead != [] && StandsAt(b, s, lead) && p == s + |lead| < |b|
    requires IsStartSymbol(b[p])
    ensures SkipWs(b, s) == p && !IsSymbol(b[s])
  {
    hide StandsAt, SkipWs;
    AtByte(b, s, lead);
    assert b[s + 0] == lead[0];
    SpaceStands(b, s, lead);
  }

  lemma LeadIs(a: AttrSource)
    requires GoodAttr(a)
    ensures a.lead != [] && AllSpace(a.lead)
  {
  }

  lemma AttributesGoOn(b: seq<byte>, s: nat, c: Cursor, endch: byte, p: nat)
    requires Terminated(b) && s < |b| && c.Open? && SkipWs(b, s) == p && IsStartSymbol(b[p]) && Attribute(b, p, c).Next?
    ensures Attributes(b, s, c, endch) == Attributes(b, Attribute(b, p, c).s, Attribute(b, p, c).cursor, endch)
  {
    hide Attribute;
  }

  lemma TagEndRead(b: seq<byte>, z: nat, endch: byte, s: nat, c: Cursor, space: seq<byte>, empty: bool)
    requires Bounded(b, z) && c.Open? && AllSpace(space) && StandsAt(Source(b, z, endch), s, space + TagEnd(empty))
    ensures s <= z && !IsSymbol(b[s])
    ensures Attributes(b, s, c, endch) == Next(Pos(z, s + |space + TagEnd(empty)|), Entered(c, Meant([]), empty))
  {
    hide StandsAt, SkipWs, Attribute, Source, AllSpace, Bounded;
    BoundedIs(b, z);
    var w := Source(b, z, endch);
    var p := s + |space|;
    AtConcat(w, s, space, TagEnd(empty));
    AtByte(w, p, TagEnd(empty));
    assert w[p + 0] == TagEnd(empty)[0] && (empty ==> w[p + 1] == GT);
    assert p <= z;
    StandsInBuffer(b, z, endch, s, space);
    BlankThere(b, s, space, p);
    assert c.attrs + Meant([]) == c.attrs;
    assert space != [] ==> IsSpace(b[s]);
  }

  // ---------- Tags ----------

  lemma OpenTagRead(b: seq<byte>, z: nat, endch: byte, s: nat, c: Cursor, name: seq<byte>, attrs: seq<AttrSource>,
      space: seq<byte>, empty: bool)
    requires Bounded(b, z) && IsName(name) && GoodAttrs(attrs) && AllSpace(space)
    requires StandsAt(Source(b, z, endch), s, TagWritten(name, attrs, space, TagEnd(empty)))
    ensures s + 1 < z && b[s] == LT && IsStartSymbol(b[s + 1])
    ensures OpenTag(b, s + 1, c, endch)
         == Next(Pos(z, s + |TagWritten(name, attrs, space, TagEnd(empty))|),
             Entered(Open(name, [], [], c), Meant(attrs), empty))
  {
    hide StandsAt, Source, Attributes, AttrsWritten, Entered, Meant, OpenTag, IsName, GoodAttrs, IsSymbol, SkipSymbols,
        TagEnd, AllSpace, Bounded;
    BoundedIs(b, z);
    var w := Source(b, z, endch);
    var tail := AttrsWritten(attrs) + (space + TagEnd(empty));
    AtHead(w, s, LT, name + tail);
    AtConcat(w, s + 1, name, tail);
    var e := s + 1 + |name|;
    AttributesRead(b, z, endch, e, Open(name, [], [], c), attrs, space, empty);
    StandsInBuffer(b, z, endch, s + 1, name);
    NamePositive(name);
    NameScanned(b, s + 1, name);
    Slice(b, s + 1, name);
    OpenTagGoesOn(b, s + 1, c, endch);
  }

  lemma NamePositive(name: seq<byte>)
    requires IsName(name)
    ensures name != []
  {
  }

  lemma EndTagRead(b: seq<byte>, z: nat, endch: byte, s: nat, c: Cursor, space: seq<byte>)
    requires Bounded(b, z) && c.Open? && IsName(c.name) && AllSpace(space)
    requires StandsAt(Source(b, z, endch), s, EndWritten(c.name, space))
    ensures s + 1 < z && b[s] == LT && b[s + 1] == SLASH
    ensures EndTag(b, s + 2, c, endch) == Next(Pos(z, s + |EndWritten(c.name, space)|), Pop(c))
  {
    hide StandsAt, Source, EndTag, SkipWs, IsName, AllSpace;
    var w := Source(b, z, endch);
    var e := s + 2 + |c.name|;
    var p := e + |space|;
    FinishStands(w, s, c.name, space);
    NamePositive(c.name);
    StandsInBuffer(b, z, endch, s + 2, c.name);
    StandsInBuffer(b, z, endch, e, space);
    Slice(b, s + 2, c.name);
    BlankThere(b, e, space, p);
    NotSymbol(b[e], space);
    EndTagExactly(b, s + 2, c, endch);
  }

  lemma FinishStands(w: seq<byte>, s: nat, name: seq<byte>, space: seq<byte>)
    requires StandsAt(w, s, EndWritten(name, space))
    ensures s + 1 < |w| && w[s] == LT && w[s + 1] == SLASH && StandsAt(w, s + 2, name) &&
      StandsAt(w, s + 2 + |name|, space)
    ensures var p := s + 2 + |name| + |space|; p < |w| && w[p] == GT && s + |EndWritten(name, space)| == p + 1
  {
    hide StandsAt;
    var rest := name + (space + [GT]);
    assert EndWritten(name, space) == [LT] + ([SLASH] + rest);
    AtHead(w, s, LT, [SLASH] + rest);
    AtHead(w, s + 1, SLASH, rest);
    AtConcat(w, s + 2, name, space + [GT]);
    AtConcat(w, s + 2 + |name|, space, [GT]);
    LastStands(w, s + 2 + |name| + |space|, GT);
  }

  lemma NotSymbol(c: byte, space: seq<byte>)
    requires IsSpace(c) || c == GT || c == NUL
    ensures !IsSymbol(c)
  {
  }

  // ---------- Sections, comments and instructions ----------

  /** The first close is the one behind the text. */
  lemma CloseRead(b: seq<byte>, z: nat, endch: byte, v: nat, text: seq<byte>, mark: byte)
    requires Bounded(b, z) && mark != NUL && mark != GT && Inside(text, mark)
    requires StandsAt(Source(b, z, endch), v, text + [mark, mark, GT])
    ensures var q := v + |text|;
      q + 2 <= z && v < |b| && ScanSection(b, v, mark, endch) == q && b[q] != NUL && b[v..q] == text &&
      (if b[q + 2] == GT then q + 3 else q + 2) == Pos(z, q + 3)
  {
    var w, x := Source(b, z, endch), text + [mark, mark, GT];
    var q := v + |text|;
    AtByte(w, v, x);
    assert w[v + |text|] == x[|text|] && w[v + (|text| + 1)] == x[|text| + 1] && w[v + (|text| + 2)] == x[|text| + 2];
    assert q + 2 <= z;
    assert forall i :: 0 <= i < |text| + 2 ==> b[v + i] == x[i];
    forall i | v <= i < q
      ensures b[i] != NUL && !SectionEnd(b, i, mark, endch)
    {
      var k := i - v;
      assert b[v + k] == x[k] == text[k] && b[v + (k + 1)] == x[k + 1];
      assert k + 2 < |text| + 2 && b[v + (k + 2)] == x[k + 2];
      assert !Closes(text, mark, k);
    }
    ScanSectionIs(b, v, q, mark, endch);
    AtConcat(w, v, text, [mark, mark, GT]);
    StandsInBuffer(b, z, endch, v, text);
    Slice(b, v, text);
  }

  lemma RemarkRead(b: seq<byte>, z: nat, endch: byte, s: nat, c: Cursor, text: seq<byte>)
    requires Bounded(b, z) && Inside(text, DASH) && StandsAt(Source(b, z, endch), s, Written(Remark(text)))
    ensures s + 2 < z && b[s] == LT && b[s + 1] == BANG
    ensures Exclamation(b, s + 1, c, endch) == Next(Pos(z, s + |Written(Remark(text))|), c)
  {
    hide StandsAt, Source, ScanSection, Inside, Convert, CStr, Common;
    var w := Source(b, z, endch);
    AtConcat(w, s, REMARK_START, text + [DASH, DASH, GT]);
    AtByte(w, s, REMARK_START);
    assert w[s + 0] == LT && w[s + 1] == BANG && w[s + 2] == DASH && w[s + 3] == DASH;
    CloseRead(b, z, endch, s + 4, text, DASH);
  }

  lemma SectionRead(b: seq<byte>, z: nat, endch: byte, s: nat, c: Cursor, text: seq<byte>)
    requires Bounded(b, z) && Inside(text, RBRACKET) && StandsAt(Source(b, z, endch), s, Written(Section(text)))
    ensures s + 2 < z && b[s] == LT && b[s + 1] == BANG
    ensures Exclamation(b, s + 1, c, endch)
         == Next(Pos(z, s + |Written(Section(text))|), AddChild(c, Cdata(CStr(Convert(text, Eol, false)))))
  {
    hide StandsAt, Source, ScanSection, Inside, Convert, CStr, Common, Exclamation;
    var w := Source(b, z, endch);
    AtConcat(w, s, SECTION_START, text + [RBRACKET, RBRACKET, GT]);
    CloseRead(b, z, endch, s + 9, text, RBRACKET);
    StandsInBuffer(b, z, endch, s, SECTION_START);
    AtByte(b, s, SECTION_START);
    assert forall i :: 0 <= i < 9 ==> b[s + i] == SECTION_START[i];
    CdataOpens(b, s);
    ExclamationTo(b, s, s + 9 + |text|, c, endch);
  }

  lemma ExclamationTo(b: seq<byte>, s: nat, q: nat, c: Cursor, endch: byte)
    requires Terminated(b) && s + 9 < |b| && forall i :: 0 <= i < 9 ==> b[s + i] == SECTION_START[i]
    requires Common(CDATA_OPEN, b[s + 3..]) == 6 && ScanSection(b, s + 9, RBRACKET, endch) == q && b[q] != NUL
    ensures b[s] == LT && b[s + 1] == BANG && q + 2 < |b|
    ensures Exclamation(b, s + 1, c, endch)
         == Next(if b[q + 2] == GT then q + 3 else q + 2, AddChild(c, Cdata(CStr(Convert(b[s + 9..q], Eol, false)))))
  {
    hide ScanSection, Convert, Common, CStr;
    var x := SECTION_START;
    assert x[0] == LT && x[1] == BANG && x[2] == LBRACKET;
    assert b[s] == b[s + 0];
  }

  lemma InstructionRead(b: seq<byte>, z: nat, endch: byte, s: nat, c: Cursor, text: seq<byte>)
    requires Bounded(b, z) && GoodInstruction(text)
    requires StandsAt(Source(b, z, endch), s, [LT, QUESTION] + (text + [QUESTION, GT]))
    ensures s + 2 < z && b[s] == LT && b[s + 1] == QUESTION
    ensures Question(b, s + 1, c, endch) == Next(Pos(z, s + |text| + 4), c)
  {
    hide StandsAt, Source, ScanQuestion, SkipSymbols, GoodInstruction, Question, Bounded;
    BoundedIs(b, z);
    var w := Source(b, z, endch);
    var q := s + 2 + |text|;
    AtConcat(w, s, [LT, QUESTION], text + [QUESTION, GT]);
    AtByte(w, s, [LT, QUESTION]);
    assert w[s + 0] == LT && w[s + 1] == QUESTION;
    AtConcat(w, s + 2, text, [QUESTION, GT]);
    AtByte(w, q, [QUESTION, GT]);
    assert w[q + 0] == QUESTION && w[q + 1] == GT;
    StandsInBuffer(b, z, endch, s + 2, text);
    QuestionThere(b, s + 2, text, q, endch);
    QuestionTo(b, s + 1, q, c, endch);
  }

  lemma QuestionThere(b: seq<byte>, s: nat, text: seq<byte>, q: nat, endch: byte)
    requires Terminated(b) && GoodInstruction(text) && StandsAt(b, s, text) && q == s + |text| && q + 1 < |b|
    requires b[q] == QUESTION && EndsWith(b[q + 1], GT, endch)
    ensures s < |b| && IsStartSymbol(b[s])
    ensures var e := SkipSymbols(b, s); s <= e <= q && b[e] != NUL && ScanQuestion(b, e, endch) == q
  {
    hide SkipSymbols, ScanQuestion, StandsAt;
    AtByte(b, s, text);
    assert b[s + 0] == text[0];
    var e := SkipSymbols(b, s);
    assert e <= q;
    forall i | e <= i < q
      ensures b[i] != NUL && !(b[i] == QUESTION && EndsWith(b[i + 1], GT, endch))
    {
      var k := i - s;
      assert b[s + k] == text[k] && text[k] in text;
      if k + 1 < |text| {
        assert b[s + (k + 1)] == text[k + 1] && text[k + 1] in text;
      }
    }
    QuestionFirst(b, e, q, endch);
  }

  lemma {:induction false} QuestionFirst(b: seq<byte>, s: nat, q: nat, endch: byte)
    requires Terminated(b) && s <= q && q + 1 < |b| && b[q] == QUESTION && EndsWith(b[q + 1], GT, endch)
    requires forall i :: s <= i < q ==> b[i] != NUL && !(b[i] == QUESTION && EndsWith(b[i + 1], GT, endch))
    ensures b[s] != NUL && ScanQuestion(b, s, endch) == q
    decreases q - s
  {
    if s < q {
      QuestionFirst(b, s + 1, q, endch);
    }
  }

  lemma QuestionTo(b: seq<byte>, s: nat, q: nat, c: Cursor, endch: byte)
    requires Terminated(b) && s + 1 < |b| && IsStartSymbol(b[s + 1]) && q + 1 < |b| && b[q] == QUESTION
    requires var e := SkipSymbols(b, s + 1); b[e] != NUL && ScanQuestion(b, e, endch) == q
    ensures Question(b, s, c, endch) == Next(if b[q + 1] == GT then q + 2 else q + 1, c)
  {
    hide SkipSymbols, ScanQuestion;
  }

  // ---------- Text ----------

  lemma TextRead(b: seq<byte>, z: nat, endch: byte, s: nat, c: Cursor, text: seq<byte>)
    requires Bounded(b, z) && Good(CharData(text)) && StandsAt(Source(b, z, endch), s, text)
    requires s + |text| + 1 < z && b[s + |text|] == LT
    ensures Parse(b, s, c, endch) == Parse(b, s + |text|, Gained(c, Meaning(CharData(text), c.Open?)), endch)
  {
    hide StandsAt, Source, Parse, Text, Meaning;
    var e := s + |text|;
    StandsInBuffer(b, z, endch, s, text);
    AtByte(b, s, text);
    assert b[s + 0] == text[0] && text[0] in text;
    Slice(b, s, text);
    ScanOver(b, s, text, LT);
    TextTo(b, s, e, c);
    TextIs(b, s, c);
    ParseText(b, s, c, endch);
  }

  lemma TextTo(b: seq<byte>, s: nat, e: nat, c: Cursor)
    requires Terminated(b) && s < e && e + 1 < |b| && b[s] != LT && b[s] != NUL && ScanTo(b, s, LT) == e &&
      b[e] == LT && b[e + 1] != NUL
    ensures Text(b, s, c).Next? && Text(b, s, c).s == e
  {
    hide Convert, CStr;
    var p := SkipWs(b, s);
    assert p <= e;
  }

  /** Text behind the last markup. */
  lemma LastTextRead(b: seq<byte>, z: nat, endch: byte, s: nat, c: Cursor, text: seq<byte>)
    requires Bounded(b, z) && Good(CharData(text)) && StandsAt(Source(b, z, endch), s, text) && c.Doc?
    requires s + |text| >= z
    ensures Parse(b, Pos(z, s), c, endch) == Parse(b, z, c, endch)
  {
    hide StandsAt, Source;
    var w := Source(b, z, endch);
    AtByte(w, s, text);
    if s < z {
      forall i | s <= i < z
        ensures b[i] != LT
      {
        assert w[s + (i - s)] == text[i - s] && text[i - s] in text;
      }
      TextUpTo(b, z, s, c, endch);
    }
  }

  lemma TextUpTo(b: seq<byte>, z: nat, s: nat, c: Cursor, endch: byte)
    requires Bounded(b, z) && s < z && c.Doc? && forall i :: s <= i < z ==> b[i] != LT
    ensures Parse(b, s, c, endch) == Parse(b, z, c, endch)
  {
    hide Tag, Convert, CStr, Parse;
    ScanToEnd(b, z, s);
    var p := SkipWs(b, s);
    assert p <= z;
    assert Text(b, s, c) == Next(z, c);
    ParseText(b, s, c, endch);
  }

  lemma {:induction false} ScanToEnd(b: seq<byte>, z: nat, s: nat)
    requires Bounded(b, z) && s <= z && forall i :: s <= i < z ==> b[i] != LT
    ensures ScanTo(b, s, LT) == z
    decreases z - s
  {
    if s < z {
      ScanToEnd(b, z, s + 1);
    }
  }

  // ---------- Pieces ----------

  /** What follows the pieces: the end tag of the open element, or the end of the input. */
  predicate Tail(b: seq<byte>, z: nat, endch: byte, e: nat, inside: bool) {
    if inside then e + 1 < z < |b| && b[e] == LT && b[e + 1] == SLASH else e == z + 1 || (e == z && endch == NUL)
  }

  /** A start tag, or an element without content. */
  lemma StartTagRead(b: seq<byte>, z: nat, endch: byte, s: nat, c: Cursor, name: seq<byte>, attrs: seq<AttrSource>,
      space: seq<byte>, empty: bool)
    requires Bounded(b, z) && IsName(name) && GoodAttrs(attrs) && AllSpace(space)
    requires StandsAt(Source(b, z, endch), s, TagWritten(name, attrs, space, TagEnd(empty)))
    ensures s < z && Parse(b, s, c, endch) == Parse(b, Pos(z, s + |TagWritten(name, attrs, space, TagEnd(empty))|),
                                           Entered(Open(name, [], [], c), Meant(attrs), empty), endch)
  {
    hide OpenTag, Parse, StandsAt, Source, TagWritten, Entered, Meant, TagEnd, IsName, GoodAttrs, AllSpace, Pos;
    OpenTagRead(b, z, endch, s, c, name, attrs, space, empty);
    StartIsTag(b, s, c, endch);
    ParseTag(b, s, c, endch, Tag(b, s + 1, c, endch).s, Tag(b, s + 1, c, endch).cursor);
  }

  lemma FinishTagRead(b: seq<byte>, z: nat, endch: byte, s: nat, c: Cursor, space: seq<byte>)
    requires Bounded(b, z) && c.Open? && IsName(c.name) && AllSpace(space)
    requires StandsAt(Source(b, z, endch), s, EndWritten(c.name, space))
    ensures s < z && Parse(b, s, c, endch) == Parse(b, Pos(z, s + |EndWritten(c.name, space)|), Pop(c), endch)
  {
    hide EndTag, Parse, StandsAt, Source, EndWritten, IsName, AllSpace, Pos;
    EndTagRead(b, z, endch, s, c, space);
    EndIsTag(b, s, c, endch);
    ParseTag(b, s, c, endch, Tag(b, s + 1, c, endch).s, Tag(b, s + 1, c, endch).cursor);
  }

  lemma EndIsTag(b: seq<byte>, s: nat, c: Cursor, endch: byte)
    requires Terminated(b) && s + 2 < |b| && b[s + 1] == SLASH
    ensures Tag(b, s + 1, c, endch) == EndTag(b, s + 2, c, endch)
  {
    hide EndTag;
  }

  /** A piece of markup without content. */
  lemma LeafRead(b: seq<byte>, z: nat, endch: byte, s: nat, c: Cursor, p: Piece)
    requires Bounded(b, z) && Good(p) && !p.Elem? && !p.CharData? && StandsAt(Source(b, z, endch), s, Written(p))
    ensures s < z && Parse(b, s, c, endch) == Parse(b, Pos(z, s + |Written(p)|), Gained(c, Meaning(p, c.Open?)), endch)
  {
    hide Parse, StandsAt, Source, TagWritten, Exclamation, Question, Inside, GoodInstruction, IsName, GoodAttrs,
        AllSpace,
        Meant, Convert, CStr, Pos;
    GainedTwice(c, [], []);
    match p
    case EmptyElem(name, attrs, space) =>
      StartTagRead(b, z, endch, s, c, name, attrs, space, true);
      assert [] + Meant(attrs) == Meant(attrs);
    case Section(text) =>
      SectionRead(b, z, endch, s, c, text);
      OtherTag(b, s, c, endch);
      ParseTag(b, s, c, endch, Tag(b, s + 1, c, endch).s, Tag(b, s + 1, c, endch).cursor);
    case Remark(text) =>
      RemarkRead(b, z, endch, s, c, text);
      OtherTag(b, s, c, endch);
      ParseTag(b, s, c, endch, Tag(b, s + 1, c, endch).s, Tag(b, s + 1, c, endch).cursor);
    case Instruction(text) =>
      InstructionRead(b, z, endch, s, c, text);
      OtherTag(b, s, c, endch);
      ParseTag(b, s, c, endch, Tag(b, s + 1, c, endch).s, Tag(b, s + 1, c, endch).cursor);
  }

  lemma OtherTag(b: seq<byte>, s: nat, c: Cursor, endch: byte)
    requires Terminated(b) && s + 2 < |b|
    ensures b[s + 1] == BANG ==> Tag(b, s + 1, c, endch) == Exclamation(b, s + 1, c, endch)
    ensures b[s + 1] == QUESTION ==> Tag(b, s + 1, c, endch) == Question(b, s + 1, c, endch)
  {
    hide OpenTag, EndTag, Exclamation, Question;
  }

  /** An element: its start tag, what is in it, and the end tag with the same name. */
  lemma {:induction false} ElemRead(b: seq<byte>, z: nat, endch: byte, s: nat, c: Cursor, p: Piece)
    requires Bounded(b, z) && Good(p) && p.Elem? && StandsAt(Source(b, z, endch), s, Written(p))
    ensures s < z && Parse(b, s, c, endch) == Parse(b, Pos(z, s + |Written(p)|), Gained(c, Meaning(p, c.Open?)), endch)
    decreases p, 0
  {
    hide Parse, StandsAt, Source, TagWritten, EndWritten, WrittenAll, IsName, GoodAttrs, AllSpace, Meant, MeaningAll,
        GoodAll;
    var w := Source(b, z, endch);
    var start, inner, end := TagWritten(p.name, p.attrs, p.space, [GT]), WrittenAll(p.inner),
        EndWritten(p.name, p.endSpace);
    AtConcat(w, s, start, inner + end);
    var q := s + |start|;
    AtConcat(w, q, inner, end);
    var r := q + |inner|;
    StartTagRead(b, z, endch, s, c, p.name, p.attrs, p.space, false);
    EndTail(b, z, endch, r, p.name, p.endSpace);
    assert [] + Meant(p.attrs) == Meant(p.attrs);
    var o := Open(p.name, Meant(p.attrs), [], c);
    PiecesRead(b, z, endch, q, o, p.inner);
    assert [] + MeaningAll(p.inner, true) == MeaningAll(p.inner, true);
    FinishTagRead(b, z, endch, r, Gained(o, MeaningAll(p.inner, true)), p.endSpace);
    GainedTwice(c, [], []);
  }

  lemma EndTail(b: seq<byte>, z: nat, endch: byte, r: nat, name: seq<byte>, space: seq<byte>)
    requires Bounded(b, z) && IsName(name) && StandsAt(Source(b, z, endch), r, EndWritten(name, space))
    ensures Tail(b, z, endch, r, true)
  {
    var w := Source(b, z, endch);
    AtByte(w, r, EndWritten(name, space));
    assert w[r + 0] == EndWritten(name, space)[0] && w[r + 1] == EndWritten(name, space)[1];
  }

  /** Pieces are read one after the other, each as what it means. */
  lemma {:induction false} PiecesRead(b: seq<byte>, z: nat, endch: byte, s: nat, c: Cursor, ps: seq<Piece>)
    requires Bounded(b, z) && GoodAll(ps) && StandsAt(Source(b, z, endch), s, WrittenAll(ps))
    requires Tail(b, z, endch, s + |WrittenAll(ps)|, c.Open?)
    ensures Parse(b, Pos(z, s), c, endch)
         == Parse(b, Pos(z, s + |WrittenAll(ps)|), Gained(c, MeaningAll(ps, c.Open?)), endch)
    decreases ps, 1
  {
    hide Parse, StandsAt, Source, Written, WrittenAll, Meaning, MeaningAll, Good, GoodAll, Tail;
    var w := Source(b, z, endch);
    if ps == [] {
      NoPieces();
      GainedTwice(c, [], []);
    } else {
      var p, rest := ps[0], ps[1..];
      assert [p] + rest == ps;
      GoodCons(p, rest);
      WrittenCons(p, rest);
      AtConcat(w, s, Written(p), WrittenAll(rest));
      var e := s + |Written(p)|;
      FrontRead(b, z, endch, s, c, p, rest);
      PiecesRead(b, z, endch, e, Gained(c, Meaning(p, c.Open?)), rest);
      GainedTwice(c, Meaning(p, c.Open?), MeaningAll(rest, c.Open?));
    }
  }

  /** The first piece. */
  lemma {:induction false} FrontRead(b: seq<byte>, z: nat, endch: byte, s: nat, c: Cursor, p: Piece, rest: seq<Piece>)
    requires Bounded(b, z) && Good(p) && GoodAll(rest) && (rest != [] && p.CharData? ==> !rest[0].CharData?)
    requires StandsAt(Source(b, z, endch), s, Written(p))
    requires StandsAt(Source(b, z, endch), s + |Written(p)|, WrittenAll(rest))
    requires Tail(b, z, endch, s + |Written(p)| + |WrittenAll(rest)|, c.Open?)
    ensures Parse(b, Pos(z, s), c, endch)
         == Parse(b, Pos(z, s + |Written(p)|), Gained(c, Meaning(p, c.Open?)), endch)
    decreases p, 1
  {
    hide Parse, StandsAt, Source, WrittenAll, Good, GoodAll, Meaning, Tail, Written;
    var w := Source(b, z, endch);
    if p.Elem? {
      ElemRead(b, z, endch, s, c, p);
    } else if !p.CharData? {
      LeafRead(b, z, endch, s, c, p);
    } else {
      TextWritten(p);
      if rest == [] && c.Doc? {
        NoPieces();
        AtTheEnd(b, z, endch, s + |Written(p)|);
        LastTextRead(b, z, endch, s, c, p.text);
        GainedTwice(c, [], []);
      } else {
        TextFollowed(b, z, endch, s + |Written(p)|, rest, c.Open?);
        TextRead(b, z, endch, s, c, p.text);
      }
    }
  }

  lemma TextWritten(p: Piece)
    requires p.CharData?
    ensures Written(p) == p.text && Meaning(p, false) == []
  {
  }

  lemma AtTheEnd(b: seq<byte>, z: nat, endch: byte, e: nat)
    requires Tail(b, z, endch, e, false)
    ensures e >= z && Pos(z, e) == z
  {
  }

  /** Behind text stands '<' and a byte that is no zero. */
  lemma TextFollowed(b: seq<byte>, z: nat, endch: byte, e: nat, rest: seq<Piece>, inside: bool)
    requires Bounded(b, z) && GoodAll(rest) && (rest != [] ==> !rest[0].CharData?) && (rest != [] || inside)
    requires StandsAt(Source(b, z, endch), e, WrittenAll(rest)) && Tail(b, z, endch, e + |WrittenAll(rest)|, inside)
    ensures e + 1 < z && b[e] == LT && b[e + 1] != NUL
  {
    hide StandsAt, Written, Good, Source;
    if rest != [] {
      var x := Written(rest[0]);
      FirstByte(rest[0]);
      AtConcat(Source(b, z, endch), e, x, WrittenAll(rest[1..]));
      AtByte(Source(b, z, endch), e, x);
      assert Source(b, z, endch)[e + 0] == x[0] && Source(b, z, endch)[e + 1] == x[1];
    }
  }

  // ---------- The language of the parser ----------

  /** What is written in the grammar is accepted, with the nodes it means. */
  lemma WrittenIsAccepted(input: seq<byte>, ps: seq<Piece>)
    requires Spells(ps, input)
    ensures ParseBuffer(input) == Parsed(MeaningAll(ps, false))
  {
    if input == [] {
      assert WrittenAll(ps) == [];
      EmptyWritten(ps);
    } else {
      hide Parse, Source, Effective, WrittenAll, MeaningAll, GoodAll, Bounded;
      var b, endch := Zeroed(input), input[|input| - 1];
      var z := FirstZero(b);
      SourceEffective(input);
      SourceRead(b, z, endch, ps);
      LastByte(ps);
    }
  }

  /** The whole source, a final zero left out. */
  lemma SourceRead(b: seq<byte>, z: nat, endch: byte, ps: seq<Piece>)
    requires Bounded(b, z) && ClosesDoc(ps, Source(b, z, endch))
    ensures Parse(b, 0, Doc([]), endch) == Parsed(MeaningAll(ps, false))
  {
    hide Parse, WrittenAll, MeaningAll, GoodAll, Source, StandsAt;
    BoundedIs(b, z);
    SourceStands(Source(b, z, endch), WrittenAll(ps));
    PiecesRead(b, z, endch, 0, Doc([]), ps);
    assert [] + MeaningAll(ps, false) == MeaningAll(ps, false);
    ParseEnds(b, z, MeaningAll(ps, false), endch);
  }

  lemma SourceStands(w: seq<byte>, x: seq<byte>)
    requires x == w || x + [NUL] == w
    ensures StandsAt(w, 0, x)
  {
    assert w[0..0 + |x|] == x;
  }

  lemma EmptyWritten(ps: seq<Piece>)
    requires GoodAll(ps) && WrittenAll(ps) == []
    ensures ps == []
  {
    hide Written, Good;
    if ps != [] {
      PieceLast(ps[0]);
    }
  }

  lemma ParseEnds(b: seq<byte>, z: nat, nodes: seq<Node>, endch: byte)
    requires Bounded(b, z)
    ensures Parse(b, z, Doc(nodes), endch) == Parsed(nodes)
  {
  }

  /** No piece ends in '<'. */
  lemma {:induction false} LastByte(ps: seq<Piece>)
    requires GoodAll(ps)
    ensures WrittenAll(ps) != [] ==> WrittenAll(ps)[|WrittenAll(ps)| - 1] != LT
  {
    hide Written, Good;
    if ps != [] {
      LastByte(ps[1..]);
      PieceLast(ps[0]);
      var x, y := Written(ps[0]), WrittenAll(ps[1..]);
      assert y != [] ==> (x + y)[|x + y| - 1] == y[|y| - 1];
    }
  }

  lemma PieceLast(p: Piece)
    requires Good(p)
    ensures Written(p) != [] && Written(p)[|Written(p)| - 1] != LT
  {
    hide AttrsWritten, WrittenAll, GoodAttrs, GoodAll;
    match p
    case Elem(name, attrs, space, inner, endSpace) =>
      var x := TagWritten(name, attrs, space, [GT]) + WrittenAll(inner);
      var y := [LT, SLASH] + (name + endSpace);
      assert Written(p) == x + (y + [GT]);
    case EmptyElem(name, attrs, space) =>
      assert Written(p) == [LT] + name + AttrsWritten(attrs) + space + [SLASH] + [GT];
    case CharData(text) => assert text[|text| - 1] in text;
    case Section(_) =>
    case Remark(_) =>
    case Instruction(_) =>
  }

  /**
   * The parser accepts an input exactly when it is written in the grammar, in which every element is closed by
   * a tag with its own name and nothing stays open; it builds what the pieces mean.
   */
  lemma AcceptedExactly(input: seq<byte>, nodes: seq<Node>)
    ensures ParseBuffer(input) == Parsed(nodes) <==> exists ps :: Spells(ps, input) && MeaningAll(ps, false) == nodes
  {
    hide ParseBuffer, Spells, MeaningAll;
    if ParseBuffer(input) == Parsed(nodes) {
      var ps := AcceptedIsWritten(input, nodes);
    }
    if ps :| Spells(ps, input) && MeaningAll(ps, false) == nodes {
      WrittenIsAccepted(input, ps);
    }
  }
}
