/** The part of the RDF data model the store and the cleaning code look at.
    Parsing, serialisation and query evaluation belong to the external RDF
    toolkit and are not modelled. */
module Rdf {
  import opened Outcome

  /** A term of a statement: an IRI (rdflib's `URIRef`), a blank node or a literal. */
  datatype Term =
    | Iri(iri: string)
    | Blank(id: string)
    | Literal(lexical: string, datatypeIri: Option<string>, language: Option<string>)

  /** A subject-predicate-object statement; equality is structural. */
  datatype Triple = Triple(subj: Term, pred: Term, obj: Term)

  /** A graph is a set of statements: no order, no duplicates. */
  type Graph = set<Triple>
}
