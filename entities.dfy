/**
 * The values the audit works on, as the compiler front end hands them over:
 * symbols of the compiled program with their documentation-comment ids and
 * attribute applications, and source locations.
 */
module Entities {

  datatype Option<T> = None | Some(value: T)

  /**
   * A source location, reduced to what the rewriter uses of it: the file
   * (syntax tree) it belongs to and the start offset of its span.
   */
  datatype Location = Location(file: string, start: nat)

  /**
   * One attribute application on a symbol: the metadata name of its attribute
   * class, and the location of the attribute list that encloses the application.
   */
  datatype Attribute = Attribute(className: string, listLocation: Location)

  /**
   * A symbol of the compiled program. Namespaces and types contain members;
   * every other symbol (method, property, field, event, ...) is a leaf. The doc
   * id is the documentation-comment id, which the front end may not have (None).
   */
  datatype Symbol =
    | NamespaceOrType(docId: Option<string>, display: string, attributes: seq<Attribute>, members: seq<Symbol>)
    | Member(docId: Option<string>, display: string, attributes: seq<Attribute>)
}
