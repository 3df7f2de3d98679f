/** The byte constants of the other modules, spelled as text. */
module Spelling {
  import opened Chars
  import Refs
  import RefLaws
  import Parser
  import Grammar
  import Printer
  import Message
  import PeerWire

  function Ascii(s: string): (r: seq<byte>)
    requires forall i :: 0 <= i < |s| ==> s[i] < 128 as char
    ensures |r| == |s| && forall i :: 0 <= i < |s| ==> r[i] == s[i] as int
  {
    seq(|s|, i requires 0 <= i < |s| => s[i] as int)
  }

  /** The character is one of these. */
  predicate OneOf(c: byte, s: string) {
    exists i :: 0 <= i < |s| && s[i] as int == c
  }

  predicate IsLetter(c: byte) {
    'A' <= c as char <= 'Z' || 'a' <= c as char <= 'z'
  }

  /** The character classes of the parser's table. */
  lemma CharacterClasses(c: byte)
    ensures IsSpace(c) <==> OneOf(c, " \t\r\n")
    ensures IsStartSymbol(c) <==> c >= 128 || IsLetter(c) || OneOf(c, "_:")
    ensures IsSymbol(c) <==> IsStartSymbol(c) || OneOf(c, "0123456789") || OneOf(c, "-.")
  {
    Spaces(c);
    Figures(c);
    Marks(c);
  }

  lemma Spaces(c: byte)
    ensures OneOf(c, " \t\r\n") <==> c == 32 || c == 9 || c == 13 || c == 10
  {
    var s := " \t\r\n";
    assert s[0] as int == 32 && s[1] as int == 9 && s[2] as int == 13 && s[3] as int == 10;
  }

  lemma Figures(c: byte)
    ensures OneOf(c, "0123456789") <==> 48 <= c <= 57
  {
    var s := "0123456789";
    if 48 <= c <= 57 {
      assert s[c - 48] as int == c;
    }
  }

  lemma Marks(c: byte)
    ensures OneOf(c, "_:") <==> c == 95 || c == 58
    ensures OneOf(c, "-.") <==> c == 45 || c == 46
  {
    var s, t := "_:", "-.";
    assert s[0] as int == 95 && s[1] as int == 58 && t[0] as int == 45 && t[1] as int == 46;
  }

  /** Names and tails of the named references. */
  lemma ReferenceNames()
    ensures Refs.AMP_TAIL == Ascii("amp;") && Refs.APOS_TAIL == Ascii("apos;") && Refs.GT_TAIL == Ascii("gt;")
    ensures Refs.LT_TAIL == Ascii("lt;") && Refs.QUOT_TAIL == Ascii("quot;")
    ensures RefLaws.AMP_NAME == Ascii("amp") && RefLaws.APOS_NAME == Ascii("apos") && RefLaws.GT_NAME == Ascii("gt")
    ensures RefLaws.LT_NAME == Ascii("lt") && RefLaws.QUOT_NAME == Ascii("quot")
  {
  }

  /** What the printer writes. */
  lemma PrinterTexts()
    ensures Printer.AMP_REF == Ascii("&amp;") && Printer.LT_REF == Ascii("&lt;") && Printer.GT_REF == Ascii("&gt;")
    ensures Printer.QUOT_REF == Ascii("&quot;") && Printer.ANONYMOUS == Ascii(":anonymous")
    ensures Printer.CDATA_START == Ascii("<![CDATA[") && Printer.CDATA_END == Ascii("]]>")
  {
  }

  lemma DeclarationText()
    ensures Printer.DECLARATION == Ascii("<?xml version=\"1.0\"?>")
  {
  }

  /** What the parser looks for. */
  lemma ParserTexts()
    ensures Parser.CDATA_OPEN == Ascii("CDATA[") && Parser.DOCTYP == Ascii("DOCTYP")
    ensures Grammar.SECTION_START == Ascii("<![CDATA[") && Grammar.REMARK_START == Ascii("<!--")
  {
  }

  /** The names of a request. */
  lemma RequestNames()
    ensures Message.REQUEST == Ascii("Request") && Message.TYPE == Ascii("type") &&
      Message.FROM_PEER == Ascii("frompeer")
    ensures Message.LISTEN_PORT == Ascii("listenport") && Message.TASK == Ascii("task") &&
      Message.RESULT == Ascii("result")
    ensures Message.LINE == Ascii("line") && Message.HISTORY == Ascii("history") && Message.STATE == Ascii("state")
  {
  }

  /** The kinds of requests in the order of their numbers. */
  const REQUEST_KINDS: seq<string> :=
    ["PING", "GET_STATE", "TASK_EXECUTE", "TASK_STATE", "TASK_REQUEST", "TASK_RESULT", "TASK_CANCEL", "PEER_LIST",
     "GET_OFFLINE", "GET_ONLINE"]

  lemma RequestNumbers()
    ensures REQUEST_KINDS[PeerWire.TASK_EXECUTE] == "TASK_EXECUTE" &&
      REQUEST_KINDS[PeerWire.TASK_REQUEST] == "TASK_REQUEST"
    ensures REQUEST_KINDS[PeerWire.TASK_RESULT] == "TASK_RESULT"
  {
  }

  lemma TaskNames()
    ensures Message.TASK_ID == Ascii("taskid") && PeerWire.TASK_PARAM == Ascii("taskParam")
    ensures PeerWire.STATUS == Ascii("status") && Message.TAB_INDENT == Ascii("\t")
  {
  }
}
