/** Lexical retrieval: query and chunks are tokenised into sets of lower-case
    alphanumeric words, each chunk is scored by the size of its overlap with
    the query, zero scores are dropped, and the best `top_k` are returned as
    excerpts. Also the choice of pack for a student profile. */
module CurriculumRetriever {
  import opened Results
  import opened Text
  import opened Ranking
  import opened CurriculumPack

  // ---------------------------------------------------------------------
  // Tokenisation: re.findall("[a-z0-9]+", text.lower()), then the filter.

  predicate IsWordChar(c: char) {
    ('a' <= c <= 'z') || ('0' <= c <= '9')
  }

  predicate AllWordChars(w: string) {
    forall k :: 0 <= k < |w| ==> IsWordChar(w[k])
  }

  const StopList: seq<string> := [
    "the", "and", "or", "a", "an", "to", "of", "in", "on", "for", "with",
    "is", "are", "was", "were", "be", "been", "being", "this", "that",
    "it", "as", "at", "by", "from", "we", "you", "i", "they", "them",
    "do", "does", "did", "what", "why", "how", "when", "where", "explain",
    "please", "tell", "me"
  ]

  /** Membership in `ws`, spelled out recursively. */
  predicate Listed(w: string, ws: seq<string>) {
    |ws| > 0 && (ws[0] == w || Listed(w, ws[1..]))
  }

  predicate IsStopWord(w: string) {
    Listed(w, StopList)
  }

  /** A run of word characters `s[start..end]`. */
  datatype Span = Span(start: nat, end: nat)

  /** `sp` is a maximal non-empty run of word characters in `s`. */
  predicate MaximalRun(s: string, sp: Span) {
    && sp.start < sp.end <= |s|
    && (forall k :: sp.start <= k < sp.end ==> IsWordChar(s[k]))
    && (sp.start == 0 || !IsWordChar(s[sp.start - 1]))
    && (sp.end == |s| || !IsWordChar(s[sp.end]))
  }

  /** Where the run of word characters starting at `i` ends. */
  function RunEnd(s: string, i: nat): (j: nat)
    requires i <= |s|
    ensures i <= j <= |s|
    ensures forall k :: i <= k < j ==> IsWordChar(s[k])
    ensures j == |s| || !IsWordChar(s[j])
    decreases |s| - i
  {
    if i < |s| && IsWordChar(s[i]) then RunEnd(s, i + 1) else i
  }

  /** The matches of `[a-z0-9]+` in `s` from position `i` on, left to right. */
  function Runs(s: string, i: nat): (r: seq<Span>)
    requires i <= |s|
    requires i == 0 || !IsWordChar(s[i - 1])
    ensures forall k :: 0 <= k < |r| ==> MaximalRun(s, r[k]) && i <= r[k].start
    decreases |s| - i
  {
    if i == |s| then []
    else if !IsWordChar(s[i]) then
      Runs(s, i + 1)
    else
      var j := RunEnd(s, i);
      var rest := if j == |s| then [] else Runs(s, j + 1);
      var r := [Span(i, j)] + rest;
      assert forall k :: 0 < k < |r| ==> r[k] == rest[k - 1];
      r
  }

  predicate LeftToRight(r: seq<Span>) {
    forall k :: 0 <= k < |r| - 1 ==> r[k].end < r[k + 1].start
  }

  lemma LeftToRightCons(sp: Span, rest: seq<Span>)
    requires LeftToRight(rest) && (|rest| > 0 ==> sp.end < rest[0].start)
    ensures LeftToRight([sp] + rest)
  {
    var r := [sp] + rest;
    forall k | 0 <= k < |r| - 1
      ensures r[k].end < r[k + 1].start
    {
      if k > 0 {
        assert r[k] == rest[k - 1] && r[k + 1] == rest[k];
      }
    }
  }

  /** The runs come left to right, separated by at least one other character. */
  lemma {:induction false} RunsInOrder(s: string, i: nat)
    requires i <= |s|
    requires i == 0 || !IsWordChar(s[i - 1])
    ensures LeftToRight(Runs(s, i))
    decreases |s| - i
  {
    if i < |s| {
      if !IsWordChar(s[i]) {
        RunsInOrder(s, i + 1);
      } else {
        var j := RunEnd(s, i);
        if j < |s| {
          RunsInOrder(s, j + 1);
          LeftToRightCons(Span(i, j), Runs(s, j + 1));
        }
      }
    }
  }

  /** Some span of `r` holds position `p`. */
  predicate Covers(r: seq<Span>, p: nat) {
    exists k :: 0 <= k < |r| && r[k].start <= p < r[k].end
  }

  lemma CoversCons(sp: Span, rest: seq<Span>, p: nat)
    requires Covers(rest, p)
    ensures Covers([sp] + rest, p)
  {
    var k :| 0 <= k < |rest| && rest[k].start <= p < rest[k].end;
    assert ([sp] + rest)[k + 1] == rest[k];
  }

  /** Every word character from position `i` on lies in one of the runs. */
  lemma {:induction false} RunsCover(s: string, i: nat, p: nat)
    requires i <= p < |s| && IsWordChar(s[p])
    requires i == 0 || !IsWordChar(s[i - 1])
    ensures Covers(Runs(s, i), p)
    decreases |s| - i
  {
    if !IsWordChar(s[i]) {
      RunsCover(s, i + 1, p);
    } else {
      var j := RunEnd(s, i);
      if p < j {
        assert Runs(s, i)[0] == Span(i, j);
      } else {
        assert p != j;
        RunsCover(s, j + 1, p);
        CoversCons(Span(i, j), Runs(s, j + 1), p);
      }
    }
  }

  /** The words `re.findall` returns, in order. */
  function Words(s: string): (r: seq<string>)
    ensures forall k :: 0 <= k < |r| ==> |r[k]| > 0 && AllWordChars(r[k])
  {
    var spans := Runs(s, 0);
    seq(|spans|, k requires 0 <= k < |spans| => s[spans[k].start..spans[k].end])
  }

  /** Keeps the words of length at least 3 that are not stop words. */
  function KeepContentWords(ws: seq<string>): seq<string> {
    if |ws| == 0 then []
    else
      (if |ws[0]| >= 3 && !IsStopWord(ws[0]) then [ws[0]] else [])
      + KeepContentWords(ws[1..])
  }

  /** The filter keeps exactly the long enough words that are not stop words. */
  lemma {:induction false} KeepContentWordsMembers(ws: seq<string>, w: string)
    ensures w in KeepContentWords(ws) <==> w in ws && |w| >= 3 && !IsStopWord(w)
  {
    if |ws| > 0 {
      KeepContentWordsMembers(ws[1..], w);
      assert ws == [ws[0]] + ws[1..];
    }
  }

  /** `_tokenize` */
  function Tokenize(text: string): seq<string> {
    KeepContentWords(Words(Lower(text)))
  }

  /** Two maximal runs that share a position are the same run. */
  lemma MaximalRunsOverlap(s: string, a: Span, b: Span, p: nat)
    requires MaximalRun(s, a) && MaximalRun(s, b)
    requires a.start <= p < a.end && b.start <= p < b.end
    ensures a == b
  {
  }

  lemma WordIsMaximalRun(s: string, w: string)
    requires w in Words(s)
    ensures exists sp :: MaximalRun(s, sp) && s[sp.start..sp.end] == w
  {
    var spans := Runs(s, 0);
    var ws := Words(s);
    var k :| 0 <= k < |ws| && ws[k] == w;
    assert MaximalRun(s, spans[k]) && s[spans[k].start..spans[k].end] == w;
  }

  lemma MaximalRunIsWord(s: string, sp: Span)
    requires MaximalRun(s, sp)
    ensures s[sp.start..sp.end] in Words(s)
  {
    var spans := Runs(s, 0);
    RunsCover(s, 0, sp.start);
    var k :| 0 <= k < |spans| && spans[k].start <= sp.start < spans[k].end;
    MaximalRunsOverlap(s, sp, spans[k], sp.start);
    assert Words(s)[k] == s[sp.start..sp.end];
  }

  /** The words of `s` are exactly its maximal `[a-z0-9]` runs. */
  lemma WordsAreMaximalRuns(s: string, w: string)
    ensures w in Words(s) <==> exists sp :: MaximalRun(s, sp) && s[sp.start..sp.end] == w
  {
    if w in Words(s) {
      WordIsMaximalRun(s, w);
    }
    if exists sp :: MaximalRun(s, sp) && s[sp.start..sp.end] == w {
      var sp :| MaximalRun(s, sp) && s[sp.start..sp.end] == w;
      MaximalRunIsWord(s, sp);
    }
  }

  /** The tokens of a text are exactly its maximal lower-cased `[a-z0-9]` runs
      of length at least 3 that are not stop words. */
  lemma TokensAreMaximalRuns(text: string, w: string)
    ensures w in Tokenize(text) <==>
              && |w| >= 3 && !IsStopWord(w)
              && exists sp :: MaximalRun(Lower(text), sp) && Lower(text)[sp.start..sp.end] == w
  {
    KeepContentWordsMembers(Words(Lower(text)), w);
    WordsAreMaximalRuns(Lower(text), w);
  }

  // ---------------------------------------------------------------------
  // Scoring and retrieval.

  /** The elements of `ws` as a set. */
  function SetOf(ws: seq<string>): (r: set<string>)
    ensures forall w :: w in r <==> w in ws
  {
    if |ws| == 0 then {} else {ws[0]} + SetOf(ws[1..])
  }

  /** The distinct tokens of a text. */
  function TokenSet(text: string): set<string> {
    SetOf(Tokenize(text))
  }

  /** The overlap score: how many distinct query tokens the chunk contains. */
  function Score(query: set<string>, text: string): nat {
    |query * TokenSet(text)|
  }

  /** The score of every chunk, by position. */
  function ChunkScores(query: set<string>, chunks: seq<Chunk>): (r: seq<nat>)
    ensures |r| == |chunks|
    ensures forall i :: 0 <= i < |r| ==> r[i] == Score(query, chunks[i].text)
  {
    seq(|chunks|, i requires 0 <= i < |chunks| => Score(query, chunks[i].text))
  }

  /** The chunks with a positive score, by position, in pack order. */
  function ScoredChunks(query: set<string>, chunks: seq<Chunk>): seq<Ranked<nat>> {
    PositiveFrom(ChunkScores(query, chunks), 0)
  }

  /** The chunks with a positive score, best first, ties in pack order. */
  function LexicalRanking(query: set<string>, chunks: seq<Chunk>): (r: seq<Ranked<nat>>)
    ensures forall k :: 0 <= k < |r| ==> r[k].item < |chunks|
  {
    RankPositive(ChunkScores(query, chunks))
  }

  /** Each ranked chunk cut to an excerpt of at most `maxChars` characters. */
  function Excerpts(chunks: seq<Chunk>, top: seq<Ranked<nat>>, maxChars: int): (r: seq<Chunk>)
    requires forall k :: 0 <= k < |top| ==> top[k].item < |chunks|
    ensures |r| == |top|
    ensures forall k :: 0 <= k < |r| ==>
              r[k] == Chunk(chunks[top[k].item].chunkId, Excerpt(chunks[top[k].item].text, maxChars))
  {
    seq(|top|, k requires 0 <= k < |top| =>
          Chunk(chunks[top[k].item].chunkId, Excerpt(chunks[top[k].item].text, maxChars)))
  }

  /** `retrieve_curriculum_chunks` */
  function Retrieve(packs: map<string, Pack>, packId: string, query: string, topK: int, maxChars: int)
    : (r: Result<seq<Chunk>>)
    ensures packId !in packs ==> r == Err(NotFound("curriculum pack"))
    ensures packId in packs ==> r.Ok?
    ensures packId in packs && TokenSet(query) == {} ==> r == Ok([])
  {
    var pack :- LoadPack(packs, packId);
    var q := TokenSet(query);
    if q == {} then Ok([])
    else
      Ok(Excerpts(pack.chunks, Take(LexicalRanking(q, pack.chunks), topK), maxChars))
  }

  /** The lexical ranking is a stable non-increasing order of exactly the
      chunks with a positive score, each carrying its own score. */
  lemma LexicalRankingContract(q: set<string>, chunks: seq<Chunk>)
    ensures var ranking := LexicalRanking(q, chunks);
            && StableDescending(ScoredChunks(q, chunks), ranking)
            && (forall k :: 0 <= k < |ranking| ==>
                  && ranking[k].item < |chunks|
                  && ranking[k].score == Score(q, chunks[ranking[k].item].text) as real
                  && ranking[k].score > 0.0)
            && (forall j :: 0 <= j < |chunks| && Score(q, chunks[j].text) > 0 ==>
                  Ranked(Score(q, chunks[j].text) as real, j) in ranking)
  {
    var scores := ChunkScores(q, chunks);
    RankPositiveIsStable(scores);
  }

  /** What a lexical result is made of: the first `top_k` entries of the
      lexical ranking of the pack's chunks, each cut to an excerpt. */
  lemma RetrieveContract(packs: map<string, Pack>, packId: string, query: string, topK: int, maxChars: int)
    requires packId in packs && TokenSet(query) != {}
    ensures var chunks := packs[packId].chunks;
            var ranking := LexicalRanking(TokenSet(query), chunks);
            var r := Retrieve(packs, packId, query, topK, maxChars).value;
            && |r| <= |ranking|
            && (0 <= topK ==> |r| == if topK < |ranking| then topK else |ranking|)
            && (topK < 0 ==> |r| == if |ranking| + topK < 0 then 0 else |ranking| + topK)
            && (forall k :: 0 <= k < |r| ==>
                  var c := chunks[ranking[k].item];
                  r[k] == Chunk(c.chunkId, Excerpt(c.text, maxChars)))
  {
    var chunks := packs[packId].chunks;
    var ranking := LexicalRanking(TokenSet(query), chunks);
    TakePrefix(ranking, topK);
    assert Retrieve(packs, packId, query, topK, maxChars)
             == Ok(Excerpts(chunks, Take(ranking, topK), maxChars));
  }

  // ---------------------------------------------------------------------
  // Pack choice.

  /** The fields of a student profile that choose a pack; `None` is a missing
      or null field. */
  datatype Profile = Profile(curriculumPack: Option<string>, subject: Option<string>)

  /** `pick_pack_id`: an explicit pack on the profile wins; otherwise the
      subject chooses one of the three KS3 packs, maths taking precedence over
      English and English over science, and maths is also the fallback. */
  function PickPackId(student: Profile): (r: string)
    ensures Truthy(student.curriculumPack) ==> r == student.curriculumPack.value
    ensures !Truthy(student.curriculumPack) ==>
              var subject := Lower(if student.subject.Some? then student.subject.value else "");
              var math := Contains(subject, "math");
              var english := Contains(subject, "english");
              var science := Contains(subject, "science");
              && r in {"KS3_Maths", "KS3_English", "KS3_Science"}
              && (r == "KS3_Maths" <==> math || (!english && !science))
              && (r == "KS3_English" <==> !math && english)
              && (r == "KS3_Science" <==> !math && !english && science)
  {
    if Truthy(student.curriculumPack) then student.curriculumPack.value
    else
      var subject := Lower(if student.subject.Some? then student.subject.value else "");
      if Contains(subject, "math") then "KS3_Maths"
      else if Contains(subject, "english") then "KS3_English"
      else if Contains(subject, "science") then "KS3_Science"
      else "KS3_Maths"
  }
}
