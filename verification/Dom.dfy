/** Document trees as values. */
module Dom {
  import opened Chars

  datatype Attr = Attr(name: seq<byte>, value: seq<byte>)

  datatype Node =
    | Element(name: seq<byte>, attrs: seq<Attr>, children: seq<Node>)
    | Pcdata(value: seq<byte>)
    | Cdata(value: seq<byte>)
}
