/** The persistent document collection (`create_or_load_chroma_db`): only the
    part that decides which documents get stored under which ids. */
module DocumentStore {
  import opened PyStr

  /** A named collection of the vector store: the documents it holds and the
      id each was stored under. Embeddings are not part of this model. */
  class Collection {
    var ids: seq<string>
    var documents: seq<string>

    /** Every document has one id, and no id is used twice. */
    ghost predicate Valid()
      reads this
    {
      && |ids| == |documents|
      && forall i, j :: 0 <= i < j < |ids| ==> ids[i] != ids[j]
    }

    /** A freshly created, empty collection. */
    constructor Create()
      ensures Valid() && ids == [] && documents == []
    {
      ids := [];
      documents := [];
    }

    /** `db.count()`: the number of stored documents. */
    function Count(): nat
      reads this
    {
      |documents|
    }

    /** `db.add(documents=doc, ids=id)` with an id not yet in use: the
        document is stored under that id, after all earlier ones. */
    method Add(doc: string, id: string)
      requires Valid() && id !in ids
      modifies this
      ensures Valid()
      ensures ids == old(ids) + [id] && documents == old(documents) + [doc]
    {
      ids := ids + [id];
      documents := documents + [doc];
    }
  }

  /** The ids a fresh collection gives its first `n` documents: `str(0)`, ..., `str(n - 1)`. */
  function SequentialIds(n: nat): (ids: seq<string>)
    ensures |ids| == n
    ensures forall i :: 0 <= i < n ==> ids[i] == NatToString(i)
  {
    seq(n, i requires 0 <= i => NatToString(i))
  }

  /** The sequential ids are pairwise distinct. */
  lemma SequentialIdsDistinct(n: nat)
    ensures forall i, j :: 0 <= i < j < n ==> SequentialIds(n)[i] != SequentialIds(n)[j]
  {
    forall i, j | 0 <= i < j < n
      ensures SequentialIds(n)[i] != SequentialIds(n)[j]
    {
      if NatToString(i) == NatToString(j) {
        NatToStringInjective(i, j);
      }
    }
  }

  /** `create_or_load_chroma_db`. When the named collection already exists
      (`existing`), it is returned as it is and `documents` are NOT added;
      otherwise a new collection is created and the documents are added one
      by one, document `i` under id `str(i)`. */
  method CreateOrLoad(existing: Collection?, documents: seq<string>) returns (db: Collection)
    requires existing != null ==> existing.Valid()
    ensures db.Valid()
    ensures existing != null ==> db == existing && db.ids == old(existing.ids) && db.documents == old(existing.documents)
    ensures existing == null ==> fresh(db) && db.documents == documents && db.ids == SequentialIds(|documents|)
    ensures existing == null ==> db.Count() == |documents|
  {
    if existing != null {
      return existing;
    }
    db := new Collection.Create();
    for i := 0 to |documents|
      invariant db.Valid() && fresh(db)
      invariant db.documents == documents[..i]
      invariant db.ids == SequentialIds(i)
    {
      var id := NatToString(i);
      assert id !in db.ids by {
        forall j | 0 <= j < i
          ensures db.ids[j] != id
        {
          if db.ids[j] == id {
            NatToStringInjective(i, j);
          }
        }
      }
      db.Add(documents[i], id);
      assert documents[..i + 1] == documents[..i] + [documents[i]];
      assert SequentialIds(i + 1) == SequentialIds(i) + [id];
    }
    assert documents[..|documents|] == documents;
  }
}
