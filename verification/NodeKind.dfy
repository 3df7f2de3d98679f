/** The kinds of nodes in a document. */
module NodeKind {

  datatype Kind = Document | Element | Pcdata | Cdata | Comment | Pi | Declaration | Doctype
}
