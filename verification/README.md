# AI classroom teacher: a Dafny model of the tutoring core

This project models the deterministic core of a voice-driven classroom tutor.
The tutor walks a cohort through a lesson plan, grounds its answers in
curriculum packs, and keeps a short memory of each student. The parts
modelled are the following.

- **Lesson plans and progression** (`LessonPlan`, `ClassroomState`,
  `ProgressWalk`).
  - A plan is units, then lessons, then steps.
  - Each cohort's position is a `(unit, lesson, step)` triple held in a map
    from cohort id.
  - `Advance` is `advance_step`. It clamps the stored triple to the plan's
    shape. It does nothing on a degenerate plan. It stops on an explicit
    `"end"` step. Otherwise it moves to the next step, then the next lesson,
    then the next unit, and pins at the final step.
  - `ProgressWalk` builds the document-order walk of all steps. On a plan
    where every unit has lessons, every lesson has steps and no step is
    `"end"`, it proves that repeated advances after a reset follow that
    walk, one step at a time, and then stay on the final step. An `"end"`
    step stops the walk where it stands (`ClassroomState.AdvanceAtEndStep`).
- **Curriculum packs and retrieval** (`CurriculumPack`, `CurriculumRetriever`,
  `RagRetriever`, `Ranking`).
  - The lexical retriever tokenises the query and each chunk, scores chunks
    by token-set overlap, and drops zero scores.
  - The vector retriever scores every index entry, with no threshold. The
    embedding call and cosine similarity are function parameters.
  - Both rank with a stable descending sort (`Ranking.SortDesc`), which is
    characterised uniquely by `StableDescending`. They keep the first
    `top_k` results and cut each text to an excerpt.
  - `PickPackId` chooses the pack for a student profile.
- **Pack building** (`PackBuilder`, `Decimal`).
  - It sanitises file names and normalises whitespace.
  - It packs paragraphs greedily into chunks, with an overlap tail.
  - It numbers chunks `pack_0001`, `pack_0002`, and so on.
- **Student memory** (`Memory`).
  - The default record for a new student.
  - The update after a question: the topic counter, the misconception and
    strength lists with no duplicates and at most 10 entries, the shortened
    answer, and the question log capped at 8.
  - The summary for the teacher prompt, which shows the top three topics.
- **Speech clean-up** (`Speech`): the text is cleaned before it is spoken.
  - Markdown asterisks are dropped.
  - Nine common fractions are spelled out.
  - Bullets and hyphens are dropped.
  - Whitespace is collapsed and stripped.
- **Shared helpers** (`Results`, `Text`).
  - `Results` has the error datatype, `Option`/`Result`, Python list
    subscripts, and keyed stores.
  - `Text` has Python's `isspace` set, `strip`, `replace`, ASCII `lower`,
    slices with negative bounds, and `join`.

The JSON files the program reads and writes are modelled as in-memory maps:
plans, packs and indexes keyed by id, cohort positions, and student records.
A missing file is an `Err(NotFound(..))` value.

Behaviour of the code worth knowing, all proved here:

- **Stuck before an empty lesson or unit.** An advance can move into a
  following lesson without steps (`ClassroomState.StuckBeforeEmptyLesson`).
  Past the last lesson of a unit it writes lesson 0 of the next unit
  unconditionally, so it can also move into a unit without lessons, or one
  whose first lesson has no steps (`ClassroomState.StuckBeforeEmptyUnit`).
  Either way every later advance is a no-op. So the stored lesson index is
  not always inside its unit.
- **`_cap_list(l, 0)` keeps the whole list**, because `l[-0:]` is `l[0:]`
  (`Memory.CapList`).
- **A chunk can be any length.** One paragraph longer than the budget is
  emitted whole (`PackBuilder.SingleParagraphUnsplit`).
- **Duplicate chunk ids.** In the vector retriever, a pack with duplicate
  chunk ids gives every such id the text of the *last* chunk that has it
  (`RagRetriever.LastWithId`).

Behaviour a reader might not expect, modelled as the code has it:

- **An empty lexical query.** A query with no usable tokens returns an empty
  list (`app/curriculum_retriever.py:47-48`).
- **Where advance is a no-op.** It is a no-op only when the *clamped*
  position is degenerate. A plan that merely contains an empty lesson elsewhere
  advances normally (`ClassroomState.AdvanceDegenerate`, `AdvanceMovesForward`).
- **The overlap prefix.** After an overflow, the new chunk is
  `(tail + "\n\n" + p).strip()`, so leading whitespace of the overlap tail is
  lost. The next chunk is the tail without that whitespace, a blank line and
  the paragraph, or the paragraph alone when the tail is all whitespace. So
  it starts with at most the last `overlap` characters of the previous
  chunk, not always exactly those characters (`PackBuilder.StepOverflows`).

## Model

| member | source | states |
|---|---|---|
| Results.Subscript | app/lesson_plan.py:16 | a list subscript succeeds exactly for indices in `[-len, len)`, counts a negative index from the end, and otherwise fails with IndexOutOfRange |
| LessonPlan.LoadPlan | app/lesson_plan.py:8-12 | a cohort without a stored plan fails with NotFound; otherwise its own plan is returned |
| LessonPlan.GetLesson | app/lesson_plan.py:15-16 | a unit index in Python's subscript range, negative ones counted from the end, selects the unit; a lesson index in range, again negative from the end, gives that lesson; a unit or lesson index outside the range fails with IndexOutOfRange |
| LessonPlan.GetStep | app/lesson_plan.py:19-23 | an index at or past the last step gives the synthetic end step; an index in range gives that step; a negative index counts from the end; below `-len` it fails |
| LessonPlan.GetStepOfEmptyLesson | app/lesson_plan.py:20-22 | a lesson without steps reports the end step for every non-negative index and never any other step |
| ClassroomState.GetOrCreate | app/classroom_state.py:27-38 | an absent cohort is added at (0,0,0); an existing cohort's triple is returned; every other cohort is unchanged |
| ClassroomState.Reset | app/classroom_state.py:41-48 | the cohort is at (0,0,0) afterwards whatever it was before; every other cohort is unchanged |
| ClassroomState.Clamp | app/classroom_state.py:73 | for a non-empty level the result is a valid index, equal to the input when the input is in range, 0 below and the last index above |
| ClassroomState.ClampPosNormalized | app/classroom_state.py:72-83 | clamping a triple to the plan's shape is idempotent |
| ClassroomState.MoveForward | app/classroom_state.py:92-113 | from a step of the plan, the move always succeeds; it lands strictly later in document order on a clamped triple, except at the final step, where it stays |
| ClassroomState.AdvanceWithoutPlan | app/classroom_state.py:59 | advancing a cohort that has no plan fails with NotFound |
| ClassroomState.AdvanceDegenerate | app/classroom_state.py:60-82 | no units, no lessons in the clamped unit, or no steps in the clamped lesson: advance succeeds and writes nothing |
| ClassroomState.AdvanceAtEndStep | app/classroom_state.py:85-90 | standing on an explicit "end" step, advance stores the clamped triple and does not move |
| ClassroomState.AdvanceMovesForward | app/classroom_state.py:92-105 | anywhere but an "end" step or the final step, the stored triple is strictly after the clamped one, is clamped itself, and only this cohort changes |
| ClassroomState.AdvanceOnOrdinaryStep | app/classroom_state.py:92-115 | on a non-"end" step, advance stores exactly the move computed from the clamped triple |
| ClassroomState.AdvanceAtFinal | app/classroom_state.py:106-115 | at the last step of the last lesson of the last unit, advance stores the clamped triple: the final position is a fixpoint |
| ClassroomState.AdvanceShape | app/classroom_state.py:51-116 | with a plan, advance never fails; it leaves the store alone or rewrites only this cohort, to a clamped triple whose unit index is a valid unit |
| ClassroomState.AdvanceMissingEntry | app/classroom_state.py:66 | a cohort with no stored triple advances exactly as one stored at (0,0,0) |
| ClassroomState.AdvanceIdempotentWhenStopped | app/classroom_state.py:85-113 | once advance has stopped on an "end" step or the final step, advancing again changes nothing |
| ClassroomState.StuckBeforeEmptyLesson | app/classroom_state.py:79-99 | moving into a following lesson with no steps stores lesson+1, step 0, and every later advance leaves the store unchanged |
| ClassroomState.StuckBeforeEmptyUnit | app/classroom_state.py:79-99 | from the last step of a unit's last lesson, moving into a next unit with no lessons, or whose first lesson has no steps, stores unit+1, lesson 0, step 0, and every later advance leaves the store unchanged |
| ProgressWalk.Walk | app/classroom_state.py:92-113 | on a plan where every unit has lessons and every lesson has steps, the steps in document order start at (0,0,0), end at the final step, strictly ascend, are linked by single moves, and are exactly the plan's steps |
| ProgressWalk.AdvanceAlongWalk | app/classroom_state.py:51-116 | on a plan with no "end" step, from any step of a walk over the plan's steps that is linked by single moves and ends at the final step, one advance stores the next step of the walk, or stays on the last |
| ProgressWalk.AdvanceTimesAlongWalk | app/classroom_state.py:51-116 | on a plan with no "end" step, from step i of such a walk (steps of the plan linked by single moves, ending at the final step), n advances store step i+n, or the final step once the walk is exhausted |
| ProgressWalk.ResetThenAdvance | app/classroom_state.py:41-116 | on a plan where every unit has lessons, every lesson has steps and no step is "end": after a reset, the k-th advance stores the k-th step of the plan in document order, each step once, and later advances stay on the final step |
| CurriculumPack.LoadPack | app/curriculum_retriever.py:10-17 | a pack id without a stored pack fails with NotFound; otherwise that pack is returned |
| CurriculumPack.Excerpt | app/curriculum_retriever.py:63-65 | the text is stripped; if longer than the limit (at least 3), it becomes its first limit-3 characters plus "...", exactly limit long; it is never longer than the limit |
| CurriculumRetriever.KeepContentWordsMembers | app/curriculum_retriever.py:30 | a word survives the filter exactly when it was found, has at least 3 characters, and is not a stop word |
| CurriculumRetriever.WordsAreMaximalRuns | app/curriculum_retriever.py:22 | the words found in a text are exactly its maximal runs of `[a-z0-9]` characters |
| CurriculumRetriever.TokensAreMaximalRuns | app/curriculum_retriever.py:20-30 | a token of a text is exactly a maximal lower-cased `[a-z0-9]` run of length at least 3 that is not a stop word |
| CurriculumRetriever.ChunkScores | app/curriculum_retriever.py:50-54 | each chunk's score is the number of distinct query tokens that are also tokens of the chunk |
| CurriculumRetriever.Retrieve | app/curriculum_retriever.py:33-48 | a missing pack fails with NotFound whatever the query; a query without tokens gives the empty list; otherwise retrieval succeeds |
| CurriculumRetriever.LexicalRankingContract | app/curriculum_retriever.py:50-58 | the ranking holds exactly the chunks with a positive score, each with its own score, in non-increasing score order with ties in pack order |
| CurriculumRetriever.RetrieveContract | app/curriculum_retriever.py:58-66 | the result is the first top_k entries of that ranking, as many as top_k and the ranking allow, or all but the last -top_k for a negative top_k, each being the chunk's id and an excerpt of its text |
| CurriculumRetriever.PickPackId | app/curriculum_retriever.py:70-90 | an explicit non-empty pack on the profile wins; otherwise the result is a KS3 pack: Maths exactly when the subject mentions "math" or none of the three subjects, English exactly when it mentions "english" but not "math", Science when only "science" matches |
| Ranking.SortDesc | app/curriculum_retriever.py:58 | the sorted list is a permutation of the input in non-increasing score order |
| Ranking.SortDescIsStable | app/curriculum_retriever.py:58 | the sort is stable: for every score, the items with that score keep their input order |
| Ranking.SortDescCharacterized | app/rag_retriever.py:34 | any arrangement that is non-increasing and keeps each score's items in input order is the sorted list: a stable descending sort has one result |
| Ranking.RankAll | app/rag_retriever.py:27-34 | every scored position appears in the ranking with its own score, nothing else does, and scores do not increase |
| Ranking.RankPositive | app/curriculum_retriever.py:50-58 | the ranking holds exactly the positions with a positive score, each with its own score |
| Ranking.RankPositiveIsStable | app/curriculum_retriever.py:55-58 | the ranking is the stable descending sort of the positively scored positions in pack order |
| RagRetriever.LoadIndex | app/rag_index.py:64-70 | a pack id without a stored embedding index fails with NotFound; otherwise that index is returned |
| RagRetriever.LastWithId | app/rag_retriever.py:25 | the lookup finds the last chunk with the given id, or none when no chunk has it |
| RagRetriever.TextOfDistinct | app/rag_retriever.py:25 | when chunk ids are distinct, each chunk's id looks up that chunk's own text |
| RagRetriever.EntryScores | app/rag_retriever.py:27-32 | every index entry is scored, by position, by the similarity of the query vector to its embedding |
| RagRetriever.RetrieveSemantic | app/rag_retriever.py:16-22 | a missing pack, then a missing index, fails with NotFound before anything else; a failed embedding call fails with its error; otherwise retrieval succeeds with at most one result per index entry |
| RagRetriever.RetrieveSemanticContract | app/rag_retriever.py:25-42 | every entry is ranked with no threshold, stably by non-increasing similarity; the result has min(top_k, entries) items, or max(0, entries + top_k) for a negative top_k, each the entry's chunk id with an excerpt of the pack's text for it ("" when the pack lacks it) |
| Decimal.ZeroPad | tools/build_curriculum_packs.py:164 | the numeral is all digits, at least `width` long, and reads back as the number it was made from |
| Decimal.ZeroPadInjective | tools/build_curriculum_packs.py:164 | different numbers get different padded numerals |
| PackBuilder.Sanitize | tools/build_curriculum_packs.py:69 | the result has only `[A-Za-z0-9._-]` characters, is no longer than the input, and is empty only for an empty input |
| PackBuilder.SanitizeKeepsAllowed | tools/build_curriculum_packs.py:69 | a prefix of allowed characters passes through unchanged |
| PackBuilder.SanitizeCollapsesRun | tools/build_curriculum_packs.py:69 | a maximal run of disallowed characters becomes a single "_" |
| PackBuilder.SanitizeIdempotent | tools/build_curriculum_packs.py:69 | sanitising a sanitised name changes nothing |
| PackBuilder.SafeFilename | tools/build_curriculum_packs.py:66-69 | the file name is non-empty and has only allowed characters; an empty base name becomes "download" |
| PackBuilder.CollapseBlanks | tools/build_curriculum_packs.py:111 | no tab and no two adjacent spaces remain, and no character is introduced except the space |
| PackBuilder.CapNewlines | tools/build_curriculum_packs.py:112 | no three newlines in a row remain, and no character is introduced |
| PackBuilder.CollapseBlanksRun | tools/build_curriculum_packs.py:111 | a whole run of spaces and tabs, of any length, becomes one space and the rest is collapsed the same way |
| PackBuilder.CollapseBlanksChar | tools/build_curriculum_packs.py:111 | a character other than a space or tab is kept |
| PackBuilder.CapNewlinesRun | tools/build_curriculum_packs.py:112 | a whole run of n newlines becomes min(n, 2) newlines and the rest is capped the same way |
| PackBuilder.CapNewlinesChar | tools/build_curriculum_packs.py:112 | a character other than a newline is kept |
| PackBuilder.NormalizeText | tools/build_curriculum_packs.py:108-113 | the result has no NBSP, no tab, no two adjacent spaces, no three adjacent newlines, and no whitespace at either end |
| PackBuilder.NormalizeKeepsText | tools/build_curriculum_packs.py:108-113 | normalising keeps every non-whitespace character, in order, and adds none |
| PackBuilder.NormalizeIdempotent | tools/build_curriculum_packs.py:108-113 | normalising normalised text changes nothing |
| PackBuilder.Paragraphs | tools/build_curriculum_packs.py:120 | each paragraph kept is non-empty and stripped, and there are at most as many as pieces |
| PackBuilder.ParagraphsKept | tools/build_curriculum_packs.py:120 | a piece is dropped exactly when it is all whitespace; no paragraphs are left exactly when every piece is blank |
| PackBuilder.Tail | tools/build_curriculum_packs.py:132 | the tail is a suffix of the buffer, the last `overlap` characters for a positive overlap below the buffer's length, and empty for a zero overlap or a short buffer |
| PackBuilder.StepMerges | tools/build_curriculum_packs.py:127-128 | when buffer, separator and paragraph fit in max_chars, the paragraph joins the buffer after "\n\n", nothing is emitted, and the buffer still fits |
| PackBuilder.StepOverflows | tools/build_curriculum_packs.py:129-133 | otherwise the buffer is emitted; the new buffer is the overlap tail without its leading whitespace, a blank line and the paragraph, or the paragraph alone when the tail is empty or all whitespace; so it ends with the paragraph and is at most tail+2+paragraph long |
| PackBuilder.OverflowBufferExact | tools/build_curriculum_packs.py:133 | stripping tail, separator and paragraph leaves the paragraph when the tail is all whitespace, and otherwise the tail from its first non-whitespace character, the separator and the paragraph |
| PackBuilder.SingleParagraphUnsplit | tools/build_curriculum_packs.py:123-135 | a text with one paragraph gives exactly one chunk, the paragraph, however long it is |
| PackBuilder.ChunkTextContract | tools/build_curriculum_packs.py:116-136 | no paragraphs give no chunks; otherwise no chunk is empty, there are at most as many chunks as paragraphs, every paragraph occurs verbatim in a chunk, and the chunk holding it never decreases along the paragraphs |
| PackBuilder.ChunkId | tools/build_curriculum_packs.py:164 | the id is the pack id, "_", and the 1-based index zero-padded to 4 digits |
| PackBuilder.ChunkIdInjective | tools/build_curriculum_packs.py:164 | different chunk positions get different ids |
| PackBuilder.NumberChunks | tools/build_curriculum_packs.py:162-167 | chunk k keeps its text, in order, and gets the id for k+1 |
| PackBuilder.NumberedLookup | tools/build_curriculum_packs.py:162-167 | numbered chunk ids are distinct, so looking up any chunk's id finds its own text |
| PackBuilder.BuildPack | tools/build_curriculum_packs.py:139-161 | a source type other than "pdf" or "html" fails; otherwise the pack carries the source's id, year band, subject, URL, publisher, licence and the retrieval time |
| PackBuilder.NumberedChunksContract | tools/build_curriculum_packs.py:150-167 | with the default budget and overlap, the numbered chunks have sequential distinct ids, no empty text, and contain every paragraph in chunk order |
| PackBuilder.BuildPackContract | tools/build_curriculum_packs.py:139-169 | the chunks of a built pack are the normalised text's paragraphs packed and numbered as above |
| Memory.GetStudentMemory | app/memory.py:30-47 | a missing student gets a new record with their name, the creation time and empty topics, lists and log; an existing record is returned and the store is unchanged |
| Memory.CapList | app/memory.py:50-51 | the result is a suffix of the list; a positive cap keeps min(cap, length) items; a cap of 0 keeps the whole list |
| Memory.Remember | app/memory.py:78-81 | the list has at most 10 entries afterwards, and every entry was there before or is the new item |
| Memory.RememberKeeps | app/memory.py:78-86 | the result is the newest 10 entries of the list with the item appended when it was not listed; so a new item goes last, it is kept while the list had room, and so is everything before it; a list of at most 10 that already has the item is unchanged; a list without repeats stays without repeats |
| Memory.BumpTopicContract | app/memory.py:72-75 | the topic's count rises by exactly one, from 0 when it is new, and its last-asked time is now; every other topic's count is unchanged; topics keep their order, stay distinct, and a new one goes last |
| Memory.ShortAnswer | app/memory.py:89-91 | the stripped answer with newlines as spaces, or its first 177 characters plus "..." when longer than 180; never longer than 180 and never with a newline |
| Memory.UpdateStudentProgress | app/memory.py:54-99 | the student's record, created if missing, is the one updated; no other student's record changes |
| Memory.UpdatedIdentity | app/memory.py:67-69 | an update keeps the record's name and creation time and sets last-seen to now |
| Memory.UpdatedTopics | app/memory.py:71-75 | a given non-empty topic counts one more question; no other topic's count changes, and nothing changes without a topic |
| Memory.UpdatedLists | app/memory.py:77-86 | a given misconception or strength is remembered in its list; a missing or empty one leaves the list as it was |
| Memory.CapAppend | app/memory.py:93-96 | appending and capping keeps the new entry last, after the newest earlier entries, makes the log min(old length + 1, n) long, and drops nothing while the log is short |
| Memory.UpdatedQuestions | app/memory.py:88-96 | the new question, stripped, with its short answer and topic ("" when absent), goes last in a log of at most 8 |
| Memory.TopTopicsLength | app/memory.py:107 | the summary shows as many topics as there are, up to three |
| Memory.TopTopicsContract | app/memory.py:106-107 | the top topics are recorded topics in non-increasing count order, ties in first-asked order, and no topic left out was asked more often than the last one shown |
| Memory.TopicsTextFallback | app/memory.py:108 | the topic line reads "None yet" exactly when no topic was ever recorded |
| Memory.NewRecordSummary | app/memory.py:116-120 | a new student's summary reports "None yet" for topics and the last question and "None recorded" for both lists |
| Memory.SummaryEndsWithLastQuestion | app/memory.py:113-120 | the summary's last line names the last logged question |
| Memory.SummaryShowsLastQuestion | app/memory.py:93-120 | after an update, the student's summary ends with the question just asked, stripped |
| Speech.StripMarkdown | app/tts_local.py:8 | removing "**" and then "*" is exactly deleting every asterisk and keeping all else in order |
| Text.RemoveAppend | app/tts_local.py:8 | deleting a character from two joined pieces deletes it from each piece and keeps everything else in order |
| Speech.RemovePairs | app/tts_local.py:8 | deleting the asterisk pairs first does not change what deleting all asterisks leaves |
| Speech.FractionWords | app/tts_local.py:12-22 | every fraction of the map contains a slash, and its reading has no asterisk, bullet, hyphen or slash |
| Speech.SpeakOneFraction | app/tts_local.py:12-24 | each fraction of the map, on its own, is read as exactly its words |
| Speech.ReplaceAround | app/tts_local.py:23-24 | in a text whose only slash is the middle of one three-character fraction, replacing a fraction pattern replaces that fraction when it matches and changes nothing otherwise |
| Speech.ReplaceAllAround | app/tts_local.py:23-24 | with distinct patterns of that shape, the whole replacement loop rewrites the one fraction and keeps the text around it |
| Speech.SpeakFractionInText | app/tts_local.py:12-24 | a fraction of the map surrounded by text with no other slash is read as its words, and the text around it is kept |
| Speech.ReplaceAllAbsent | app/tts_local.py:23-24 | text with no slash comes through the fraction replacements unchanged |
| Speech.DropBullets | app/tts_local.py:27 | exactly the bullets and hyphens are deleted, and every other character is kept in order |
| Speech.CollapseSpace | app/tts_local.py:30 | the only whitespace left is non-adjacent spaces; the result starts with a space exactly when the input starts with whitespace, and is all whitespace exactly when the input is |
| Speech.CollapseRun | app/tts_local.py:30 | a whole whitespace run, of any length and mix, becomes one space and the rest is collapsed the same way |
| Speech.CollapseWord | app/tts_local.py:30 | a stretch without whitespace is kept as it is |
| Speech.CollapseBetween | app/tts_local.py:30 | two words without whitespace, asterisks, slashes, bullets or hyphens, with whitespace between, collapse to the words joined by one space |
| Speech.CollapseNonSpace | app/tts_local.py:30 | collapsing keeps every non-whitespace character, in order |
| Speech.CollapseFixpoint | app/tts_local.py:30 | collapsing leaves a text unchanged exactly when its only whitespace is single spaces |
| Speech.CollapseIdempotent | app/tts_local.py:30 | collapsing twice is collapsing once |
| Speech.SanitizeNoMarks | app/tts_local.py:6-32 | the spoken text has no asterisk, bullet or hyphen |
| Speech.SanitizeSpacing | app/tts_local.py:30-32 | the spoken text has only single spaces as whitespace and none at either end, and keeps every other character left after the replacements |
| Speech.SanitizeAllSpace | app/tts_local.py:30 | whitespace-only input is spoken as the empty string |
| Speech.MarksAbsent | app/tts_local.py:8-27 | text with no asterisk, slash, bullet or hyphen passes the replacements unchanged |
| Speech.SanitizeJoinsWords | app/tts_local.py:6-32 | two non-empty words without asterisks, slashes, bullets or hyphens, separated by any non-empty whitespace run, are spoken with exactly one space between them |
| Speech.SanitizePlain | app/tts_local.py:6-32 | text without marks, slashes or extra whitespace is spoken as written, and clean-up output without a slash is such text, so cleaning it again changes nothing |

## Left out

- JSON persistence is left out: reading and writing the progress, memory, pack and index files. Stores are in-memory maps, and concurrent read-modify-write races are not modelled.
- Fetching sources, PDF and HTML text extraction, and URL parsing are left out. These are network calls and library code. `SafeFilename` takes the URL path's base name as its input.
- The paragraph split `re.split(r"\n\s*\n", text)` is a parameter of `BuildPack`, because the regex engine is not modelled. The chunking contracts hold for every split.
- Building the embedding index (`build_index` in app/rag_index.py) is left out. It is one batched call to the embedding provider.
- `cosine_sim` and the embedding call are function parameters of `RetrieveSemantic`. Floating-point arithmetic and NaN ordering are left out. Scores are `real`.
- Clocks are left out. Every timestamp of one call is a single `now` input. The source reads the clock separately for `created_at`, `last_seen_at`, a topic's `last` and the log entry's `ts`.
- `Lower` maps ASCII letters only. Non-ASCII case folding is left out. `IsSpace` is the fixed set of characters `str.isspace` and `\s` accept.
- JSON fields that could be missing or have the wrong type are not modelled. The source reads them with `.get(field, default)` and `int(...)`. Every datatype field is present, and a missing list is the empty sequence.
- The speech engine call in `speak` is left out (pyttsx3 `say` and `runAndWait`). So are speech-to-text, voice identification, the LLM prompt, the CLI and demo scripts, and the audio helpers.
- `PackBuilder.BuildPack`: the source fetches the URL before it checks the source type. The model checks the type on text that has already been extracted.
- `CurriculumPack.Excerpt`: its contract says nothing when `max_chunk_chars` is below 3. The body then follows Python's negative slice.
- `Memory.UpdateStudentProgress`: a missing student's record is created and updated in one step. The source saves the empty record first, through `get_student_memory`, and then saves again.
- The fraction map is applied to the whole text, even inside longer numbers. For example, "11/2" is read as "1one half". Hyphens are dropped after the fractions are spelled out. No contract claims otherwise; the model keeps this behaviour as written.
