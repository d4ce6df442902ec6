/** Vector retrieval: every entry of a pack's embedding index is scored
    against the query's embedding, with no threshold, the entries are ranked
    best first, and the best `top_k` are returned as excerpts of the pack's
    text for their chunk id. The embedding call and the similarity measure
    are supplied by the caller. */
module RagRetriever {
  import opened Results
  import opened Text
  import opened Ranking
  import opened CurriculumPack

  datatype IndexEntry = IndexEntry(chunkId: string, embedding: seq<real>)

  /** An embedding index: one vector per chunk of the pack, made with `model`. */
  datatype EmbeddingIndex = EmbeddingIndex(packId: string, model: string, entries: seq<IndexEntry>)

  /** `load_index`: indexes are stored one per pack id. */
  function LoadIndex(indexes: map<string, EmbeddingIndex>, packId: string): (r: Result<EmbeddingIndex>)
    ensures packId !in indexes ==> r == Err(NotFound("embedding index"))
    ensures packId in indexes ==> r == Ok(indexes[packId])
  {
    Load(indexes, packId, "embedding index")
  }

  /** The position of the last chunk with id `id`, if any. */
  function LastWithId(chunks: seq<Chunk>, id: string): (r: Option<nat>)
    ensures r.None? <==> forall k :: 0 <= k < |chunks| ==> chunks[k].chunkId != id
    ensures r.Some? ==>
              && r.value < |chunks| && chunks[r.value].chunkId == id
              && forall j :: r.value < j < |chunks| ==> chunks[j].chunkId != id
  {
    if |chunks| == 0 then None
    else if chunks[|chunks| - 1].chunkId == id then Some(|chunks| - 1)
    else LastWithId(chunks[..|chunks| - 1], id)
  }

  /** The pack's text for a chunk id: building a dictionary from the chunks
      keeps the last chunk with that id; a missing id reads as "". */
  function TextOf(chunks: seq<Chunk>, id: string): string {
    match LastWithId(chunks, id)
    case None => ""
    case Some(k) => chunks[k].text
  }

  /** With distinct chunk ids, every chunk's id looks up its own text. */
  lemma TextOfDistinct(chunks: seq<Chunk>, i: nat)
    requires i < |chunks|
    requires forall a, b :: 0 <= a < b < |chunks| ==> chunks[a].chunkId != chunks[b].chunkId
    ensures TextOf(chunks, chunks[i].chunkId) == chunks[i].text
  {
    var k := LastWithId(chunks, chunks[i].chunkId).value;
    assert k == i;
  }

  /** The similarity of the query vector to every index entry, by position. */
  function EntryScores(qv: seq<real>, entries: seq<IndexEntry>, sim: (seq<real>, seq<real>) -> real)
    : (r: seq<real>)
    ensures |r| == |entries|
    ensures forall i :: 0 <= i < |r| ==> r[i] == sim(qv, entries[i].embedding)
  {
    seq(|entries|, i requires 0 <= i < |entries| => sim(qv, entries[i].embedding))
  }

  /** The output for the ranked entries `top`: the entry's chunk id with an
      excerpt of the pack's text for it. */
  function Lookup(chunks: seq<Chunk>, entries: seq<IndexEntry>, top: seq<Ranked<nat>>, maxChars: int)
    : (r: seq<Chunk>)
    requires forall k :: 0 <= k < |top| ==> top[k].item < |entries|
    ensures |r| == |top|
    ensures forall k :: 0 <= k < |r| ==>
              var id := entries[top[k].item].chunkId;
              r[k] == Chunk(id, Excerpt(TextOf(chunks, id), maxChars))
  {
    seq(|top|, k requires 0 <= k < |top| =>
          var id := entries[top[k].item].chunkId;
          Chunk(id, Excerpt(TextOf(chunks, id), maxChars)))
  }

  /** `retrieve_semantic`. `embed(model, text)` stands for the embedding
      service and `sim` for the cosine similarity of two vectors. */
  function RetrieveSemantic(
    packs: map<string, Pack>, indexes: map<string, EmbeddingIndex>, packId: string, query: string,
    topK: int, maxChars: int,
    embed: (string, string) -> Result<seq<real>>, sim: (seq<real>, seq<real>) -> real)
    : (r: Result<seq<Chunk>>)
    ensures packId !in packs ==> r == Err(NotFound("curriculum pack"))
    ensures packId in packs && packId !in indexes ==> r == Err(NotFound("embedding index"))
    ensures packId in packs && packId in indexes ==>
              var e := embed(indexes[packId].model, query);
              (e.Err? ==> r == Err(e.error)) && (e.Ok? ==> r.Ok?)
    ensures r.Ok? ==> |r.value| <= |indexes[packId].entries|
  {
    var pack :- LoadPack(packs, packId);
    var idx :- LoadIndex(indexes, packId);
    var qv :- embed(idx.model, query);
    var ranking := RankAll(EntryScores(qv, idx.entries, sim));
    Ok(Lookup(pack.chunks, idx.entries, Take(ranking, topK), maxChars))
  }

  /** What a vector result is made of: the ranking holds every index entry,
      none filtered out, in a stable non-increasing order of similarity; the
      result is its first `top_k` entries, as many as `top_k` allows, each
      the entry's chunk id with an excerpt of the pack's text for it. */
  lemma RetrieveSemanticContract(
    packs: map<string, Pack>, indexes: map<string, EmbeddingIndex>, packId: string, query: string,
    topK: int, maxChars: int,
    embed: (string, string) -> Result<seq<real>>, sim: (seq<real>, seq<real>) -> real)
    requires packId in packs && packId in indexes
    requires embed(indexes[packId].model, query).Ok?
    ensures var entries := indexes[packId].entries;
            var scores := EntryScores(embed(indexes[packId].model, query).value, entries, sim);
            var ranking := RankAll(scores);
            var r := RetrieveSemantic(packs, indexes, packId, query, topK, maxChars, embed, sim).value;
            && StableDescending(ScoreAll(scores), ranking)
            && (forall j :: 0 <= j < |entries| ==> Ranked(scores[j], j) in ranking)
            && (0 <= topK ==> |r| == if topK < |entries| then topK else |entries|)
            && (topK < 0 ==> |r| == if |entries| + topK < 0 then 0 else |entries| + topK)
            && (forall k :: 0 <= k < |r| ==>
                  var id := entries[ranking[k].item].chunkId;
                  r[k] == Chunk(id, Excerpt(TextOf(packs[packId].chunks, id), maxChars)))
  {
    var scores := EntryScores(embed(indexes[packId].model, query).value, indexes[packId].entries, sim);
    SortDescIsStable(ScoreAll(scores));
  }
}
