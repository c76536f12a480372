/** The part of an RDF graph that the mapper sees: resources, nodes and statements. */
module Rdf {

  /** A resource is a URI node or a blank node; a blank node is known by its local label. */
  datatype Resource = Named(uri: string) | Anon(id: string)

  /** The object position of a statement also admits literals. */
  datatype Node = Res(r: Resource) | Lit(lexical: string)

  /** A statement; its subject is a resource by construction, never a literal. */
  datatype Triple = Triple(subj: Resource, pred: string, obj: Node)

  /** The reserved type-assertion predicate, rdf:type. */
  const RDF_TYPE: string := "http://www.w3.org/1999/02/22-rdf-syntax-ns#type"

  /** RDFNode.toString: the URI, the blank-node label, or the literal's lexical form. */
  function NodeString(n: Node): string {
    match n
    case Res(Named(u)) => u
    case Res(Anon(l)) => l
    case Lit(v) => v
  }
}
