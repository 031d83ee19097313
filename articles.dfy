/** The article record that flows through the processing pipeline. */
module Articles {

  datatype Option<T> = None | Some(value: T)

  /** An embedding vector; its numeric content is never inspected by the
      model, only handed to the similarity functions. */
  type Vector = seq<real>

  /** The dictionary produced by `normalize_article`, plus the `embedding`
      key that the embedding step adds later (absent until then). */
  datatype Article = Article(
    title: string,
    link: string,
    source: string,
    summary: string,
    publishedAt: string,
    image: string,
    embedding: Option<Vector>)

  /** Every article carries an embedding, as the deduplicator and the ranker
      read `a["embedding"]` of each one. */
  predicate HasEmbeddings(articles: seq<Article>) {
    forall i :: 0 <= i < |articles| ==> articles[i].embedding.Some?
  }

  /** The embeddings of `articles`, in order (the matrix `X` of the
      deduplicator). */
  function Embeddings(articles: seq<Article>): (xs: seq<Vector>)
    requires HasEmbeddings(articles)
    ensures |xs| == |articles|
    ensures forall i :: 0 <= i < |articles| ==> articles[i].embedding == Some(xs[i])
  {
    seq(|articles|, i requires 0 <= i < |articles| => articles[i].embedding.value)
  }
}
