/**
 * The provision record the ingestion command builds (the `LawProvision`
 * model of src/chatbot/models.py, lines 22-51), reduced to the fields the
 * command fills in, and its uniqueness key `(document, article_number,
 * provision_id)` (models.py, line 51; ingest_law_data.py, line 119).
 */
module Provisions {
  import opened Wrappers

  /** The identity of the owning `LawDocument` row. */
  type DocumentId = nat

  /** The four-field context the walk keeps in `current_context`. */
  datatype Context = Context(chapter: string, section: string, articleNumber: nat, articleTitle: string)

  /** The context before the first match: empty labels, article 0. */
  const InitialContext: Context := Context("", "", 0, "")

  /** One provision: its document, the context it was emitted under, its
      identifier (None for article text outside any clause, the clause
      number, or "<clause>.<letter>" for a point) and its cleaned content. */
  datatype Provision = Provision(
    document: DocumentId,
    chapter: string,
    section: string,
    articleNumber: nat,
    articleTitle: string,
    id: Option<string>,
    content: string)

  /** The uniqueness key of a provision. */
  datatype Key = Key(document: DocumentId, articleNumber: nat, id: Option<string>)

  function KeyOf(p: Provision): Key {
    Key(p.document, p.articleNumber, p.id)
  }

  /** The context a provision was stamped with. */
  function ContextOf(p: Provision): Context {
    Context(p.chapter, p.section, p.articleNumber, p.articleTitle)
  }

  /** A provision of document doc stamped with the context ctx. */
  function Stamp(doc: DocumentId, ctx: Context, id: Option<string>, content: string): Provision {
    Provision(doc, ctx.chapter, ctx.section, ctx.articleNumber, ctx.articleTitle, id, content)
  }
}
