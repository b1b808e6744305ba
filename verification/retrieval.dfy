/** Retrieval-augmented answering (`get_relevant_passages`,
    `generate_response`). The embedding model, the store's similarity search,
    the prompt template and the generative model are parameters. */
module Retrieval {
  import opened Lists
  import opened DocumentStore

  /** The store's similarity search: given the stored documents, the query
      embeddings and a result count, one list of matching documents per query
      embedding, most similar first. */
  type Search<-Q> = (seq<string>, Q, int) -> seq<seq<string>>

  /** The literal answer given when retrieval finds nothing. */
  const NoRelevantInformation: string := "No relevant information found."

  /** The number of results asked of the store: the requested count, lowered
      to the collection size when it exceeds it. */
  function ClampCount(requested: int, total: nat): (n: int)
    ensures n <= total && n <= requested
    ensures n == requested || n == total
  {
    if requested > total then total else requested
  }

  /** The passages retrieved for `query`: the store's answer for the clamped
      count, flattened in order. */
  ghost function Passages<Q>(query: string, documents: seq<string>, nResults: int,
                             embed: seq<string> -> Q, search: Search<Q>): seq<string>
  {
    Flatten(search(documents, embed([query]), ClampCount(nResults, |documents|)))
  }

  /** `get_relevant_passages`: embed the query, ask the store for
      `min(n_results, db.count())` results, flatten the answer. */
  method GetRelevantPassages<Q>(query: string, db: Collection, nResults: int,
                                embed: seq<string> -> Q, search: Search<Q>)
    returns (passages: seq<string>)
    ensures passages == Passages(query, db.documents, nResults, embed, search)
  {
    var queryEmbedding := embed([query]);
    var total := db.Count();
    var n := nResults;
    if n > total {
      n := total;
    }
    var results := search(db.documents, queryEmbedding, n);
    passages := Flatten(results);
  }

  /** When the store answers each query with at most `k` documents, all taken
      from the collection, the retrieved passages are stored documents and
      there are at most `k` per query. */
  lemma {:induction false} PassagesFromStore(documents: seq<string>, answer: seq<seq<string>>, k: nat)
    requires forall i :: 0 <= i < |answer| ==> |answer[i]| <= k
    requires forall i, d :: 0 <= i < |answer| && d in answer[i] ==> d in documents
    ensures |Flatten(answer)| <= |answer| * k
    ensures forall d :: d in Flatten(answer) ==> d in documents
  {
    if answer != [] {
      var rest := answer[1..];
      assert forall i :: 0 <= i < |rest| ==> rest[i] == answer[i + 1];
      PassagesFromStore(documents, rest, k);
      assert Flatten(answer) == answer[0] + Flatten(rest);
      assert |answer| * k == k + |rest| * k;
      forall d | d in Flatten(answer)
        ensures d in documents
      {
        if d !in answer[0] {
          assert d in Flatten(rest);
        }
      }
    }
  }

  /** `generate_response`: with no passages retrieved (three requested), the
      fixed literal, and the generator is not consulted; otherwise the
      generator's answer to the structured prompt, unchanged. */
  method GenerateResponse<Q>(db: Collection, query: string, context: string, sources: string,
                             embed: seq<string> -> Q, search: Search<Q>,
                             makePrompt: (string, string, string) -> string,
                             generate: string -> string)
    returns (answer: string)
    ensures Passages(query, db.documents, 3, embed, search) == [] ==> answer == NoRelevantInformation
    ensures Passages(query, db.documents, 3, embed, search) != [] ==>
              answer == generate(makePrompt(query, context, sources))
  {
    var relevantPassages := GetRelevantPassages(query, db, 3, embed, search);
    if relevantPassages != [] {
      var prompt := makePrompt(query, context, sources);
      answer := generate(prompt);
    } else {
      answer := NoRelevantInformation;
    }
  }
}
