/** Curriculum packs: an immutable, ordered collection of text chunks for one
    subject and year band, built offline and read by both retrievers. */
module CurriculumPack {
  import opened Results
  import opened Text

  datatype Chunk = Chunk(chunkId: string, text: string)

  /** Where the pack's text came from; `retrievedAt` is an opaque timestamp. */
  datatype SourceInfo = SourceInfo(url: string, publisher: string, licence: string, retrievedAt: string)

  datatype Pack = Pack(packId: string, yearBand: string, subject: string, source: SourceInfo, chunks: seq<Chunk>)

  /** `_load_pack` / `load_pack`: packs are stored one per pack id. */
  function LoadPack(packs: map<string, Pack>, packId: string): (r: Result<Pack>)
    ensures packId !in packs ==> r == Err(NotFound("curriculum pack"))
    ensures packId in packs ==> r == Ok(packs[packId])
  {
    Load(packs, packId, "curriculum pack")
  }

  /** The text a retriever returns for a chunk: stripped, and cut to
      `maxChars` with a trailing "..." when longer. */
  function Excerpt(text: string, maxChars: int): (r: string)
    ensures |Strip(text)| <= maxChars ==> r == Strip(text)
    ensures 3 <= maxChars < |Strip(text)| ==>
              |r| == maxChars && r == Strip(text)[..maxChars - 3] + "..."
    ensures 3 <= maxChars ==> |r| <= maxChars
  {
    Ellipsize(Strip(text), maxChars)
  }
}
