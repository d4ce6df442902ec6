/** The offline pack builder: cache file names, whitespace normalisation of
    extracted text, the greedy paragraph chunker with tail overlap, and the
    numbering of chunks into a pack. Fetching and PDF/HTML extraction are
    outside the model; their result is an input. */
module PackBuilder {
  import opened Results
  import opened Text
  import opened Decimal
  import opened CurriculumPack
  import opened RagRetriever

  // ---------------------------------------------------------------------
  // Cache file names.

  /** The characters `[a-zA-Z0-9._-]` a cache file name may keep. */
  predicate Allowed(c: char) {
    ('a' <= c <= 'z') || ('A' <= c <= 'Z') || ('0' <= c <= '9') || c == '.' || c == '_' || c == '-'
  }

  predicate AllAllowed(s: string) {
    forall k :: 0 <= k < |s| ==> Allowed(s[k])
  }

  /** How many characters that are not allowed `s` starts with. */
  function DisallowedRun(s: string): (n: nat)
    ensures n <= |s|
    ensures forall k :: 0 <= k < n ==> !Allowed(s[k])
    ensures n == |s| || Allowed(s[n])
  {
    if |s| > 0 && !Allowed(s[0]) then 1 + DisallowedRun(s[1..]) else 0
  }

  /** `re.sub(r"[^a-zA-Z0-9._-]+", "_", s)` */
  function Sanitize(s: string): (r: string)
    ensures AllAllowed(r)
    ensures |r| <= |s|
    ensures |s| > 0 ==> |r| > 0
    decreases |s|
  {
    if |s| == 0 then ""
    else if Allowed(s[0]) then [s[0]] + Sanitize(s[1..])
    else "_" + Sanitize(s[DisallowedRun(s)..])
  }

  /** Allowed characters are copied through unchanged. */
  lemma {:induction false} SanitizeKeepsAllowed(a: string, b: string)
    requires AllAllowed(a)
    ensures Sanitize(a + b) == a + Sanitize(b)
    decreases |a|
  {
    if |a| == 0 {
      assert a + b == b;
    } else {
      assert (a + b)[1..] == a[1..] + b;
      SanitizeKeepsAllowed(a[1..], b);
      assert a == [a[0]] + a[1..];
    }
  }

  lemma {:induction false} DisallowedRunOf(run: string, b: string)
    requires forall k :: 0 <= k < |run| ==> !Allowed(run[k])
    requires |b| == 0 || Allowed(b[0])
    ensures DisallowedRun(run + b) == |run|
    decreases |run|
  {
    if |run| == 0 {
      assert run + b == b;
    } else {
      assert (run + b)[1..] == run[1..] + b;
      DisallowedRunOf(run[1..], b);
    }
  }

  /** A maximal run of characters that are not allowed becomes one `_`. */
  lemma SanitizeCollapsesRun(run: string, b: string)
    requires |run| > 0 && forall k :: 0 <= k < |run| ==> !Allowed(run[k])
    requires |b| == 0 || Allowed(b[0])
    ensures Sanitize(run + b) == "_" + Sanitize(b)
  {
    DisallowedRunOf(run, b);
    assert (run + b)[|run|..] == b;
  }

  /** A sanitised name is its own sanitisation. */
  lemma SanitizeIdempotent(s: string)
    ensures Sanitize(Sanitize(s)) == Sanitize(s)
  {
    var r := Sanitize(s);
    SanitizeKeepsAllowed(r, "");
    assert r + "" == r;
  }

  /** `_safe_filename`, from the last component of the URL's path (the URL
      parsing itself is not modelled): "download" stands in for an empty
      name, and the result is a non-empty name of allowed characters. */
  function SafeFilename(name: string): (r: string)
    ensures |r| > 0 && AllAllowed(r)
    ensures name == "" ==> r == "download"
    ensures name != "" ==> r == Sanitize(name)
  {
    SanitizeKeepsAllowed("download", "");
    assert "download" + "" == "download";
    Sanitize(if name == "" then "download" else name)
  }

  // ---------------------------------------------------------------------
  // Whitespace normalisation.

  const Nbsp: char := '\U{00A0}'

  predicate IsBlank(c: char) {
    c == ' ' || c == '\t'
  }

  /** How many spaces and tabs `s` starts with. */
  function BlankRun(s: string): (n: nat)
    ensures n <= |s|
    ensures forall k :: 0 <= k < n ==> IsBlank(s[k])
    ensures n == |s| || !IsBlank(s[n])
  {
    if |s| > 0 && IsBlank(s[0]) then 1 + BlankRun(s[1..]) else 0
  }

  /** How many newlines `s` starts with. */
  function NewlineRun(s: string): (n: nat)
    ensures n <= |s|
    ensures forall k :: 0 <= k < n ==> s[k] == '\n'
    ensures n == |s| || s[n] != '\n'
  {
    if |s| > 0 && s[0] == '\n' then 1 + NewlineRun(s[1..]) else 0
  }

  function Newlines(k: nat): (r: string)
    ensures |r| == k && forall i :: 0 <= i < k ==> r[i] == '\n'
  {
    if k == 0 then "" else "\n" + Newlines(k - 1)
  }

  predicate DoubleSpaceAt(s: string, i: int) {
    0 <= i && i + 1 < |s| && s[i] == ' ' && s[i + 1] == ' '
  }

  predicate NoDoubleSpace(s: string) {
    forall i :: 0 <= i < |s| ==> !DoubleSpaceAt(s, i)
  }

  predicate TripleNewlineAt(s: string, i: int) {
    0 <= i && i + 2 < |s| && s[i] == '\n' && s[i + 1] == '\n' && s[i + 2] == '\n'
  }

  predicate NoTripleNewline(s: string) {
    forall i :: 0 <= i < |s| ==> !TripleNewlineAt(s, i)
  }

  lemma NoDoubleSpaceCons(c: char, r: string)
    requires NoDoubleSpace(r)
    requires c != ' ' || |r| == 0 || r[0] != ' '
    ensures NoDoubleSpace([c] + r)
  {
    var s := [c] + r;
    forall i | 0 <= i < |s|
      ensures !DoubleSpaceAt(s, i)
    {
      if i > 0 && DoubleSpaceAt(s, i) {
        assert DoubleSpaceAt(r, i - 1);
      }
    }
  }

  lemma NoTripleNewlineJoin(a: string, b: string)
    requires NoTripleNewline(b)
    requires |a| <= 2 && (|b| == 0 || b[0] != '\n')
    ensures NoTripleNewline(a + b)
  {
    var s := a + b;
    forall i | 0 <= i < |s|
      ensures !TripleNewlineAt(s, i)
    {
      if i >= |a| && TripleNewlineAt(s, i) {
        assert TripleNewlineAt(b, i - |a|);
      }
    }
  }

  lemma NoTripleNewlineCons(c: char, b: string)
    requires NoTripleNewline(b) && c != '\n'
    ensures NoTripleNewline([c] + b)
  {
    var s := [c] + b;
    forall i | 0 <= i < |s|
      ensures !TripleNewlineAt(s, i)
    {
      if i >= 1 && TripleNewlineAt(s, i) {
        assert TripleNewlineAt(b, i - 1);
      }
    }
  }

  lemma SliceKeepsNoDoubleSpace(s: string, a: nat, b: nat)
    requires a <= b <= |s| && NoDoubleSpace(s)
    ensures NoDoubleSpace(s[a..b])
  {
    var t := s[a..b];
    forall i | 0 <= i < |t|
      ensures !DoubleSpaceAt(t, i)
    {
      if DoubleSpaceAt(t, i) {
        assert DoubleSpaceAt(s, a + i);
      }
    }
  }

  lemma SliceKeepsNoTripleNewline(s: string, a: nat, b: nat)
    requires a <= b <= |s| && NoTripleNewline(s)
    ensures NoTripleNewline(s[a..b])
  {
    var t := s[a..b];
    forall i | 0 <= i < |t|
      ensures !TripleNewlineAt(t, i)
    {
      if TripleNewlineAt(t, i) {
        assert TripleNewlineAt(s, a + i);
      }
    }
  }

  lemma SuffixKeepsNoTripleNewline(s: string, a: nat)
    requires a <= |s| && NoTripleNewline(s)
    ensures NoTripleNewline(s[a..])
  {
    SliceKeepsNoTripleNewline(s, a, |s|);
    assert s[a..|s|] == s[a..];
  }

  /** `re.sub(r"[ \t]+", " ", s)`: every run of spaces and tabs becomes one
      space. */
  function CollapseBlanks(s: string): (r: string)
    ensures '\t' !in r
    ensures NoDoubleSpace(r)
    ensures |s| == 0 <==> |r| == 0
    ensures |s| > 0 ==> r[0] == if IsBlank(s[0]) then ' ' else s[0]
    ensures forall c :: c in r ==> c == ' ' || c in s
    decreases |s|
  {
    if |s| == 0 then ""
    else if IsBlank(s[0]) then
      var n := BlankRun(s);
      var rest := CollapseBlanks(s[n..]);
      NoDoubleSpaceCons(' ', rest);
      " " + rest
    else
      var rest := CollapseBlanks(s[1..]);
      NoDoubleSpaceCons(s[0], rest);
      [s[0]] + rest
  }

  /** `re.sub(r"\n{3,}", "\n\n", s)`: every run of three or more newlines
      becomes two. */
  function CapNewlines(s: string): (r: string)
    ensures NoTripleNewline(r)
    ensures |s| == 0 <==> |r| == 0
    ensures |s| > 0 ==> r[0] == s[0]
    ensures forall c :: c in r ==> c in s
    decreases |s|
  {
    if |s| == 0 then ""
    else if s[0] == '\n' then
      var n := NewlineRun(s);
      var rest := CapNewlines(s[n..]);
      var run := Newlines(if n < 3 then n else 2);
      NoTripleNewlineJoin(run, rest);
      run + rest
    else
      var rest := CapNewlines(s[1..]);
      NoTripleNewlineCons(s[0], rest);
      [s[0]] + rest
  }

  /** A leading run of spaces and tabs ended by anything else is counted
      whole. */
  lemma {:induction false} BlankRunOf(w: string, b: string)
    requires forall k :: 0 <= k < |w| ==> IsBlank(w[k])
    requires |b| == 0 || !IsBlank(b[0])
    ensures BlankRun(w + b) == |w|
    decreases |w|
  {
    if |w| == 0 {
      assert w + b == b;
    } else {
      assert (w + b)[1..] == w[1..] + b;
      BlankRunOf(w[1..], b);
    }
  }

  /** A whole run of spaces and tabs becomes one space, whatever its
      length. */
  lemma CollapseBlanksRun(w: string, b: string)
    requires |w| > 0 && forall k :: 0 <= k < |w| ==> IsBlank(w[k])
    requires |b| == 0 || !IsBlank(b[0])
    ensures CollapseBlanks(w + b) == " " + CollapseBlanks(b)
  {
    BlankRunOf(w, b);
    assert (w + b)[|w|..] == b;
  }

  /** Any other character is kept. */
  lemma CollapseBlanksChar(c: char, b: string)
    requires !IsBlank(c)
    ensures CollapseBlanks([c] + b) == [c] + CollapseBlanks(b)
  {
    assert ([c] + b)[1..] == b;
  }

  /** A leading run of newlines ended by anything else is counted whole. */
  lemma {:induction false} NewlineRunOf(n: nat, b: string)
    requires |b| == 0 || b[0] != '\n'
    ensures NewlineRun(Newlines(n) + b) == n
    decreases n
  {
    if n == 0 {
      assert Newlines(0) + b == b;
    } else {
      assert (Newlines(n) + b)[1..] == Newlines(n - 1) + b;
      NewlineRunOf(n - 1, b);
    }
  }

  /** A whole run of `n` newlines is kept when `n` is one or two and
      becomes two otherwise. */
  lemma CapNewlinesRun(n: nat, b: string)
    requires n > 0 && (|b| == 0 || b[0] != '\n')
    ensures CapNewlines(Newlines(n) + b) == Newlines(if n < 2 then n else 2) + CapNewlines(b)
  {
    NewlineRunOf(n, b);
    assert (Newlines(n) + b)[n..] == b;
  }

  /** Any character other than a newline is kept. */
  lemma CapNewlinesChar(c: char, b: string)
    requires c != '\n'
    ensures CapNewlines([c] + b) == [c] + CapNewlines(b)
  {
    assert ([c] + b)[1..] == b;
  }

  lemma {:induction false} CapNewlinesKeepsNoDoubleSpace(s: string)
    requires NoDoubleSpace(s)
    ensures NoDoubleSpace(CapNewlines(s))
    decreases |s|
  {
    if |s| > 0 {
      if s[0] == '\n' {
        var n := NewlineRun(s);
        SliceKeepsNoDoubleSpace(s, n, |s|);
        assert s[n..|s|] == s[n..];
        CapNewlinesKeepsNoDoubleSpace(s[n..]);
        var rest := CapNewlines(s[n..]);
        var run := Newlines(if n < 3 then n else 2);
        forall i | 0 <= i < |run + rest|
          ensures !DoubleSpaceAt(run + rest, i)
        {
          if i >= |run| && DoubleSpaceAt(run + rest, i) {
            assert DoubleSpaceAt(rest, i - |run|);
          }
        }
      } else {
        SliceKeepsNoDoubleSpace(s, 1, |s|);
        assert s[1..|s|] == s[1..];
        CapNewlinesKeepsNoDoubleSpace(s[1..]);
        if |s| > 1 {
          assert !DoubleSpaceAt(s, 0);
        }
        NoDoubleSpaceCons(s[0], CapNewlines(s[1..]));
      }
    }
  }

  /** The properties of normalised text survive `strip`, which only cuts. */
  lemma StripKeepsClean(c: string)
    requires Nbsp !in c && '\t' !in c && NoDoubleSpace(c) && NoTripleNewline(c)
    ensures var r := Strip(c);
            Nbsp !in r && '\t' !in r && NoDoubleSpace(r) && NoTripleNewline(r)
  {
    var r := Strip(c);
    var s := LeadingSpace(c);
    SliceKeepsNoDoubleSpace(c, s, s + |r|);
    SliceKeepsNoTripleNewline(c, s, s + |r|);
    assert forall x :: x in r ==> x in c;
  }

  /** `normalize_text` */
  function NormalizeText(text: string): (r: string)
    ensures Nbsp !in r && '\t' !in r
    ensures NoDoubleSpace(r) && NoTripleNewline(r)
    ensures NoEdgeSpace(r)
  {
    var a := Replace(text, [Nbsp], " ");
    ReplaceCharByChar(text, Nbsp, ' ');
    var b := CollapseBlanks(a);
    var c := CapNewlines(b);
    CapNewlinesKeepsNoDoubleSpace(b);
    StripKeepsClean(c);
    Strip(c)
  }

  lemma {:induction false} SubstNonSpace(s: string, c: char, d: char)
    requires IsSpace(c) && IsSpace(d)
    ensures NonSpace(Subst(s, c, d)) == NonSpace(s)
    decreases |s|
  {
    if |s| > 0 {
      assert Subst(s, c, d)[1..] == Subst(s[1..], c, d);
      SubstNonSpace(s[1..], c, d);
    }
  }

  lemma {:induction false} CollapseBlanksNonSpace(s: string)
    ensures NonSpace(CollapseBlanks(s)) == NonSpace(s)
    decreases |s|
  {
    if |s| > 0 {
      if IsBlank(s[0]) {
        var n := BlankRun(s);
        var rest := CollapseBlanks(s[n..]);
        CollapseBlanksNonSpace(s[n..]);
        assert (" " + rest)[1..] == rest;
        assert s == s[..n] + s[n..];
        NonSpaceAppend(s[..n], s[n..]);
        NonSpaceOfAllSpace(s[..n]);
      } else {
        var rest := CollapseBlanks(s[1..]);
        CollapseBlanksNonSpace(s[1..]);
        assert ([s[0]] + rest)[1..] == rest;
      }
    }
  }

  lemma {:induction false} CapNewlinesNonSpace(s: string)
    ensures NonSpace(CapNewlines(s)) == NonSpace(s)
    decreases |s|
  {
    if |s| > 0 {
      if s[0] == '\n' {
        var n := NewlineRun(s);
        var rest := CapNewlines(s[n..]);
        var run := Newlines(if n < 3 then n else 2);
        CapNewlinesNonSpace(s[n..]);
        NonSpaceAppend(run, rest);
        NonSpaceOfAllSpace(run);
        assert s == s[..n] + s[n..];
        NonSpaceAppend(s[..n], s[n..]);
        NonSpaceOfAllSpace(s[..n]);
      } else {
        var rest := CapNewlines(s[1..]);
        CapNewlinesNonSpace(s[1..]);
        assert ([s[0]] + rest)[1..] == rest;
      }
    }
  }

  /** Normalising only ever removes or rewrites whitespace: the visible
      characters of the text survive, in order. */
  lemma NormalizeKeepsText(text: string)
    ensures NonSpace(NormalizeText(text)) == NonSpace(text)
  {
    ReplaceCharByChar(text, Nbsp, ' ');
    var a := Subst(text, Nbsp, ' ');
    SubstNonSpace(text, Nbsp, ' ');
    CollapseBlanksNonSpace(a);
    CapNewlinesNonSpace(CollapseBlanks(a));
    StripNonSpace(CapNewlines(CollapseBlanks(a)));
  }

  lemma SubstAbsent(s: string, c: char, d: char)
    requires c !in s
    ensures Subst(s, c, d) == s
  {
  }

  lemma {:induction false} CollapseBlanksFixed(s: string)
    requires '\t' !in s && NoDoubleSpace(s)
    ensures CollapseBlanks(s) == s
    decreases |s|
  {
    if |s| > 0 {
      var n := if IsBlank(s[0]) then BlankRun(s) else 1;
      if IsBlank(s[0]) {
        if |s| > 1 {
          assert !DoubleSpaceAt(s, 0);
          assert BlankRun(s[1..]) == 0;
        }
        assert n == 1;
      }
      SliceKeepsNoDoubleSpace(s, 1, |s|);
      assert s[1..|s|] == s[1..];
      CollapseBlanksFixed(s[1..]);
      assert s == [s[0]] + s[1..];
    }
  }

  /** Without three newlines in a row, a run of newlines is at most two long. */
  lemma RunAtMostTwo(s: string)
    requires NoTripleNewline(s)
    ensures NewlineRun(s) <= 2
  {
    assert !TripleNewlineAt(s, 0);
  }

  lemma CapNewlinesRunStep(s: string, n: nat)
    requires 0 < n <= 2 && n == NewlineRun(s)
    requires CapNewlines(s[n..]) == s[n..]
    ensures CapNewlines(s) == s
  {
    assert Newlines(n) == s[..n];
    SplitAt(s, n);
  }

  lemma SplitAt(s: string, n: nat)
    requires n <= |s|
    ensures s[..n] + s[n..] == s
  {
  }

  lemma CapNewlinesCharStep(s: string)
    requires |s| > 0 && s[0] != '\n'
    requires CapNewlines(s[1..]) == s[1..]
    ensures CapNewlines(s) == s
  {
    assert s == [s[0]] + s[1..];
  }

  lemma {:induction false} CapNewlinesFixed(s: string)
    requires NoTripleNewline(s)
    ensures CapNewlines(s) == s
    decreases |s|
  {
    if |s| > 0 {
      if s[0] == '\n' {
        var n := NewlineRun(s);
        RunAtMostTwo(s);
        SuffixKeepsNoTripleNewline(s, n);
        CapNewlinesFixed(s[n..]);
        CapNewlinesRunStep(s, n);
      } else {
        SuffixKeepsNoTripleNewline(s, 1);
        CapNewlinesFixed(s[1..]);
        CapNewlinesCharStep(s);
      }
    }
  }

  /** Normalised text is left as it is by a second normalisation. */
  lemma NormalizeIdempotent(text: string)
    ensures NormalizeText(NormalizeText(text)) == NormalizeText(text)
  {
    var t := NormalizeText(text);
    ReplaceCharByChar(t, Nbsp, ' ');
    SubstAbsent(t, Nbsp, ' ');
    CollapseBlanksFixed(t);
    CapNewlinesFixed(t);
    StripNoEdge(t);
  }

  // ---------------------------------------------------------------------
  // Paragraph chunking.

  /** `[p.strip() for p in pieces if p.strip()]`, where `pieces` are the
      parts of the text between blank lines. */
  function Paragraphs(pieces: seq<string>): (r: seq<string>)
    ensures |r| <= |pieces|
    ensures forall k :: 0 <= k < |r| ==> r[k] != "" && NoEdgeSpace(r[k])
  {
    if |pieces| == 0 then []
    else
      var p := Strip(pieces[0]);
      (if p != "" then [p] else []) + Paragraphs(pieces[1..])
  }

  /** The piece list keeps a paragraph for exactly the pieces that are not
      all whitespace. */
  lemma {:induction false} ParagraphsKept(pieces: seq<string>)
    ensures |Paragraphs(pieces)| == |pieces| <==> forall k :: 0 <= k < |pieces| ==> !AllSpace(pieces[k])
    ensures (forall k :: 0 <= k < |pieces| ==> AllSpace(pieces[k])) <==> Paragraphs(pieces) == []
  {
    if |pieces| > 0 {
      ParagraphsKept(pieces[1..]);
      assert forall k :: 1 <= k < |pieces| ==> pieces[k] == pieces[1..][k - 1];
    }
  }

  /** `buf[-overlap:] if overlap and len(buf) > overlap else ""`: a suffix of
      `buf`, the last `overlap` characters for a positive `overlap`. */
  function Tail(buf: string, overlap: int): (t: string)
    ensures |t| <= |buf| && t == buf[|buf| - |t|..]
    ensures 0 < overlap < |buf| ==> |t| == overlap
    ensures overlap == 0 || (0 < |buf| <= overlap) ==> t == ""
  {
    if overlap != 0 && |buf| > overlap then Drop(buf, -overlap) else ""
  }

  /** The state of the chunking loop: the chunks emitted so far, the chunk
      being filled, and, as bookkeeping of the model, the index of the chunk
      each paragraph seen so far went into. */
  datatype Packing = Packing(chunks: seq<string>, buf: string, owners: seq<nat>)

  /** The chunks emitted so far followed by the one being filled. */
  function Current(st: Packing): seq<string> {
    st.chunks + [st.buf]
  }

  /** One iteration of the loop over paragraphs. */
  function Step(st: Packing, p: string, maxChars: int, overlap: int): Packing {
    if st.buf == "" then
      Packing(st.chunks, p, st.owners + [|st.chunks|])
    else if |st.buf| + 2 + |p| <= maxChars then
      Packing(st.chunks, st.buf + "\n\n" + p, st.owners + [|st.chunks|])
    else
      Packing(st.chunks + [st.buf], Strip(Tail(st.buf, overlap) + "\n\n" + p), st.owners + [|st.chunks| + 1])
  }

  /** The loop state after the given paragraphs. */
  function Steps(paras: seq<string>, maxChars: int, overlap: int): Packing
    decreases |paras|
  {
    if |paras| == 0 then Packing([], "", [])
    else Step(Steps(paras[..|paras| - 1], maxChars, overlap), paras[|paras| - 1], maxChars, overlap)
  }

  /** `if buf: chunks.append(buf)` */
  function Emit(st: Packing): seq<string> {
    if st.buf != "" then st.chunks + [st.buf] else st.chunks
  }

  /** `chunk_text`, on the pieces of the text between blank lines. */
  function ChunkText(pieces: seq<string>, maxChars: int, overlap: int): seq<string> {
    Emit(Steps(Paragraphs(pieces), maxChars, overlap))
  }

  /** Which chunk of `ChunkText` each paragraph went into. */
  function ChunkOwners(pieces: seq<string>, maxChars: int, overlap: int): seq<nat> {
    Steps(Paragraphs(pieces), maxChars, overlap).owners
  }

  lemma ContainsExtended(a: string, b: string, q: string)
    requires Contains(a, q)
    ensures Contains(a + b, q)
  {
    var i :| 0 <= i <= |a| - |q| && OccursAt(a, q, i);
    assert (a + b)[i..i + |q|] == a[i..i + |q|];
    assert OccursAt(a + b, q, i);
  }

  lemma ContainsSuffix(a: string, q: string)
    ensures Contains(a + q, q)
  {
    assert (a + q)[|a|..|a| + |q|] == q;
    assert OccursAt(a + q, q, |a|);
  }

  lemma ContainsSelf(q: string)
    ensures Contains(q, q)
  {
    assert q[0..|q|] == q;
    assert OccursAt(q, q, 0);
  }

  /** Stripping text that ends in a non-empty stripped paragraph keeps the
      paragraph whole at the end. */
  lemma StripKeepsLast(t: string, p: string)
    requires p != "" && NoEdgeSpace(p)
    ensures var r := Strip(t + p);
            |p| <= |r| && r[|r| - |p|..] == p
  {
    var s := t + p;
    var r := Strip(s);
    var a := LeadingSpace(s);
    assert s[|t|] == p[0];
    assert a <= |t|;
    assert a + |r| == |s|;
    assert r == s[a..];
    assert s[|t|..] == p;
  }

  predicate Ascends(o: seq<nat>) {
    forall i, j :: 0 <= i <= j < |o| ==> o[i] <= o[j]
  }

  lemma AscendsAppend(o: seq<nat>, x: nat)
    requires Ascends(o) && forall i :: 0 <= i < |o| ==> o[i] <= x
    ensures Ascends(o + [x])
  {
  }

  /** The loop invariant: bookkeeping has one owner per paragraph, owners
      never decrease, each paragraph occurs in its owner, no emitted chunk is
      empty, and there are fewer emitted chunks than paragraphs. */
  ghost predicate Packed(st: Packing, paras: seq<string>) {
    && |st.owners| == |paras|
    && (st.buf == "" <==> |paras| == 0)
    && (forall k :: 0 <= k < |st.chunks| ==> st.chunks[k] != "")
    && (|paras| == 0 ==> st.chunks == [])
    && (|paras| > 0 ==> |st.chunks| < |paras|)
    && Ascends(st.owners)
    && (forall i :: 0 <= i < |paras| ==>
          st.owners[i] <= |st.chunks| && Contains(Current(st)[st.owners[i]], paras[i]))
  }

  /** One step keeps the invariant, extended by the new paragraph. */
  lemma StepPacked(st: Packing, prev: seq<string>, p: string, maxChars: int, overlap: int,
                   next: Packing, paras: seq<string>)
    requires Packed(st, prev)
    requires p != "" && NoEdgeSpace(p)
    requires next == Step(st, p, maxChars, overlap) && paras == prev + [p]
    ensures Packed(next, paras)
  {
    if st.buf == "" {
      FirstPacked(st, prev, p);
    } else if |st.buf| + 2 + |p| <= maxChars {
      MergePacked(st, prev, p);
    } else {
      OverflowPacked(st, prev, p, overlap);
    }
  }

  lemma FirstPacked(st: Packing, prev: seq<string>, p: string)
    requires Packed(st, prev) && st.buf == ""
    requires p != ""
    ensures Packed(Packing(st.chunks, p, st.owners + [|st.chunks|]), prev + [p])
  {
    ContainsSelf(p);
    assert prev == [];
  }

  lemma MergePacked(st: Packing, prev: seq<string>, p: string)
    requires Packed(st, prev) && st.buf != ""
    ensures Packed(Packing(st.chunks, st.buf + "\n\n" + p, st.owners + [|st.chunks|]), prev + [p])
  {
    var paras := prev + [p];
    var st' := Packing(st.chunks, st.buf + "\n\n" + p, st.owners + [|st.chunks|]);
    MergeKeepsOwners(st, prev, p);
    ContainsSuffix(st.buf + "\n\n", p);
    AscendsAppend(st.owners, |st.chunks|);
    assert forall i :: 0 <= i < |prev| ==> paras[i] == prev[i] && st'.owners[i] == st.owners[i];
    assert paras[|prev|] == p && st'.owners[|prev|] == |st.chunks|;
  }

  lemma OverflowPacked(st: Packing, prev: seq<string>, p: string, overlap: int)
    requires Packed(st, prev) && st.buf != ""
    requires p != "" && NoEdgeSpace(p)
    ensures Packed(Packing(st.chunks + [st.buf], Strip(Tail(st.buf, overlap) + "\n\n" + p),
                           st.owners + [|st.chunks| + 1]), prev + [p])
  {
    var t := Tail(st.buf, overlap) + "\n\n";
    StripKeepsLast(t, p);
    var r := Strip(t + p);
    assert r == r[..|r| - |p|] + p;
    ContainsSuffix(r[..|r| - |p|], p);
    assert Tail(st.buf, overlap) + "\n\n" + p == t + p;
    PushPacked(st, prev, p, r);
  }

  /** Emitting the buffer and starting a new one that holds the paragraph
      keeps the invariant. */
  lemma PushPacked(st: Packing, prev: seq<string>, p: string, nb: string)
    requires Packed(st, prev) && st.buf != ""
    requires Contains(nb, p) && nb != ""
    ensures Packed(Packing(st.chunks + [st.buf], nb, st.owners + [|st.chunks| + 1]), prev + [p])
  {
    var paras := prev + [p];
    var st' := Packing(st.chunks + [st.buf], nb, st.owners + [|st.chunks| + 1]);
    PushKeepsOwners(st, prev, nb);
    assert forall i :: 0 <= i < |prev| ==> paras[i] == prev[i] && st'.owners[i] == st.owners[i];
    assert paras[|prev|] == p && st'.owners[|prev|] == |st.chunks| + 1;
    AscendsAppend(st.owners, |st.chunks| + 1);
    assert Current(st')[|st.chunks| + 1] == nb;
  }

  lemma MergeKeepsOwners(st: Packing, prev: seq<string>, p: string)
    requires |st.owners| == |prev| && st.buf != ""
    requires forall i :: 0 <= i < |prev| ==>
               st.owners[i] <= |st.chunks| && Contains(Current(st)[st.owners[i]], prev[i])
    ensures var st' := Packing(st.chunks, st.buf + "\n\n" + p, st.owners + [|st.chunks|]);
            forall i :: 0 <= i < |prev| ==> Contains(Current(st')[st'.owners[i]], prev[i])
  {
    var st' := Packing(st.chunks, st.buf + "\n\n" + p, st.owners + [|st.chunks|]);
    forall i | 0 <= i < |prev|
      ensures Contains(Current(st')[st'.owners[i]], prev[i])
    {
      assert st'.owners[i] == st.owners[i];
      if st.owners[i] == |st.chunks| {
        ContainsExtended(st.buf, "\n\n" + p, prev[i]);
        assert st.buf + "\n\n" + p == st.buf + ("\n\n" + p);
      } else {
        assert Current(st')[st.owners[i]] == Current(st)[st.owners[i]];
      }
    }
  }

  lemma PushKeepsOwners(st: Packing, prev: seq<string>, nb: string)
    requires |st.owners| == |prev|
    requires forall i :: 0 <= i < |prev| ==>
               st.owners[i] <= |st.chunks| && Contains(Current(st)[st.owners[i]], prev[i])
    ensures var st' := Packing(st.chunks + [st.buf], nb, st.owners + [|st.chunks| + 1]);
            forall i :: 0 <= i < |prev| ==> Contains(Current(st')[st'.owners[i]], prev[i])
  {
    var st' := Packing(st.chunks + [st.buf], nb, st.owners + [|st.chunks| + 1]);
    forall i | 0 <= i < |prev|
      ensures Contains(Current(st')[st'.owners[i]], prev[i])
    {
      assert st'.owners[i] == st.owners[i];
      assert Current(st')[st.owners[i]] == Current(st)[st.owners[i]];
    }
  }

  lemma {:induction false} StepsPacked(paras: seq<string>, maxChars: int, overlap: int)
    requires forall k :: 0 <= k < |paras| ==> paras[k] != "" && NoEdgeSpace(paras[k])
    ensures Packed(Steps(paras, maxChars, overlap), paras)
    decreases |paras|
  {
    if |paras| > 0 {
      var n := |paras| - 1;
      StepsPacked(paras[..n], maxChars, overlap);
      assert paras[..n] + [paras[n]] == paras;
      StepPacked(Steps(paras[..n], maxChars, overlap), paras[..n], paras[n], maxChars, overlap,
                 Steps(paras, maxChars, overlap), paras);
    }
  }

  /** The separator and a stripped paragraph, stripped: just the paragraph. */
  lemma StripSeparated(p: string)
    requires p != "" && NoEdgeSpace(p)
    ensures Strip("\n\n" + p) == p
  {
    var s := "\n\n" + p;
    assert s[1..][1..] == p;
    assert LeadingSpace(s) == 2;
    StripKeepsLast("\n\n", p);
  }

  /** A paragraph that fits, with the separator, beside a non-empty buffer
      in `maxChars` is merged into it: nothing is emitted and the buffer
      still fits. */
  lemma StepMerges(st: Packing, p: string, maxChars: int, overlap: int)
    requires st.buf != "" && |st.buf| + 2 + |p| <= maxChars
    ensures var next := Step(st, p, maxChars, overlap);
            && next.chunks == st.chunks
            && next.buf == st.buf + "\n\n" + p && |next.buf| <= maxChars
  {
  }

  /** A paragraph that does not fit makes the buffer a chunk of its own; the
      next buffer ends with the paragraph, after at most the overlap tail of
      the old buffer and the separator, and is the paragraph alone when there
      is no tail. */
  lemma StepOverflows(st: Packing, p: string, maxChars: int, overlap: int)
    requires st.buf != "" && |st.buf| + 2 + |p| > maxChars
    requires p != "" && NoEdgeSpace(p)
    ensures var next := Step(st, p, maxChars, overlap);
            && next.chunks == st.chunks + [st.buf]
            && |p| <= |next.buf| <= |Tail(st.buf, overlap)| + 2 + |p|
            && next.buf[|next.buf| - |p|..] == p
            && (overlap == 0 || |st.buf| <= overlap ==> next.buf == p)
            && var t := Tail(st.buf, overlap);
               && (AllSpace(t) ==> next.buf == p)
               && (!AllSpace(t) ==> next.buf == t[LeadingSpace(t)..] + "\n\n" + p)
  {
    OverflowBuffer(Tail(st.buf, overlap), p);
    OverflowBufferExact(Tail(st.buf, overlap), p);
    if overlap == 0 || |st.buf| <= overlap {
      StripSeparated(p);
    }
  }

  /** The buffer started after an overflow ends with the paragraph and is no
      longer than tail, separator and paragraph together. */
  lemma OverflowBuffer(t: string, p: string)
    requires p != "" && NoEdgeSpace(p)
    ensures var b := Strip(t + "\n\n" + p);
            |p| <= |b| <= |t| + 2 + |p| && b[|b| - |p|..] == p
  {
    assert t + "\n\n" + p == (t + "\n\n") + p;
    StripKeepsLast(t + "\n\n", p);
  }

  /** The buffer started after an overflow, exactly: the paragraph alone
      when the tail is all whitespace, and otherwise the tail without its
      leading whitespace, the separator and the paragraph. */
  lemma OverflowBufferExact(t: string, p: string)
    requires p != "" && NoEdgeSpace(p)
    ensures AllSpace(t) ==> Strip(t + "\n\n" + p) == p
    ensures !AllSpace(t) ==> Strip(t + "\n\n" + p) == t[LeadingSpace(t)..] + "\n\n" + p
  {
    if AllSpace(t) {
      OverflowAfterBlankTail(t, p);
    } else {
      OverflowAfterTextTail(t, p);
    }
  }

  /** An all-whitespace tail and the separator are stripped away whole. */
  lemma OverflowAfterBlankTail(t: string, p: string)
    requires AllSpace(t) && p != "" && NoEdgeSpace(p)
    ensures Strip(t + "\n\n" + p) == p
  {
    var w := t + "\n\n";
    var s := w + p;
    assert t + "\n\n" + p == s;
    AllSpaceAppend(t, "\n\n");
    LeadingSpaceOfRun(w, p);
    assert s[|s| - 1] == p[|p| - 1];
    StripLeadingOnly(s);
    assert s[|w|..] == p;
  }

  /** A tail with text keeps everything from its first non-whitespace
      character on. */
  lemma OverflowAfterTextTail(t: string, p: string)
    requires !AllSpace(t) && p != "" && NoEdgeSpace(p)
    ensures Strip(t + "\n\n" + p) == t[LeadingSpace(t)..] + "\n\n" + p
  {
    var x := "\n\n" + p;
    var u := t[LeadingSpace(t)..];
    assert Strip(t + x) == u + x by {
      assert x[|x| - 1] == p[|p| - 1];
      StripAfterText(t, x);
    }
    AppendAssoc(t, "\n\n", p);
    AppendAssoc(u, "\n\n", p);
  }

  /** A single paragraph becomes a single chunk whatever its length: the
      packer never splits a paragraph, so chunk size has no upper bound. */
  lemma SingleParagraphUnsplit(piece: string, maxChars: int, overlap: int)
    requires !AllSpace(piece)
    ensures ChunkText([piece], maxChars, overlap) == [Strip(piece)]
  {
    var p := Strip(piece);
    assert [piece][1..] == [];
    assert Paragraphs([piece]) == [p];
    assert [p][..0] == [];
    assert Steps([p], maxChars, overlap) == Packing([], p, [0]);
  }

  /** What `chunk_text` promises: no paragraphs, no chunks; otherwise no
      chunk is empty, there are at most as many chunks as paragraphs, and
      each paragraph occurs verbatim in a chunk, in chunk order. */
  lemma ChunkTextContract(pieces: seq<string>, maxChars: int, overlap: int)
    ensures var paras := Paragraphs(pieces);
            var chunks := ChunkText(pieces, maxChars, overlap);
            var owners := ChunkOwners(pieces, maxChars, overlap);
            && (paras == [] ==> chunks == [])
            && (forall k :: 0 <= k < |chunks| ==> chunks[k] != "")
            && |chunks| <= |paras|
            && |owners| == |paras|
            && (forall i :: 0 <= i < |paras| ==> owners[i] < |chunks| && Contains(chunks[owners[i]], paras[i]))
            && Ascends(owners)
  {
    var paras := Paragraphs(pieces);
    StepsPacked(paras, maxChars, overlap);
    var st := Steps(paras, maxChars, overlap);
    if paras != [] {
      assert Emit(st) == Current(st);
    }
  }

  // ---------------------------------------------------------------------
  // Building a pack.

  /** One curriculum source: where the document is and how to read it. */
  datatype Source = Source(
    packId: string, yearBand: string, subject: string, url: string,
    sourceType: string, publisher: string, licence: string)

  /** `f"{pack_id}_{i:04d}"` */
  function ChunkId(packId: string, i: nat): (r: string)
    ensures |r| >= |packId| + 5 && r[..|packId|] == packId && r[|packId|] == '_'
    ensures r[|packId| + 1..] == ZeroPad(i, 4)
  {
    packId + "_" + ZeroPad(i, 4)
  }

  /** Different chunk numbers give different ids within a pack. */
  lemma ChunkIdInjective(packId: string, i: nat, j: nat)
    requires ChunkId(packId, i) == ChunkId(packId, j)
    ensures i == j
  {
    assert ZeroPad(i, 4) == ChunkId(packId, i)[|packId| + 1..];
  }

  /** `enumerate(chunks, start=1)`: the chunk texts with their numbered ids. */
  function NumberChunks(packId: string, texts: seq<string>): (r: seq<Chunk>)
    ensures |r| == |texts|
    ensures forall k :: 0 <= k < |r| ==> r[k].text == texts[k] && r[k].chunkId == ChunkId(packId, k + 1)
  {
    seq(|texts|, k requires 0 <= k < |texts| => Chunk(ChunkId(packId, k + 1), texts[k]))
  }

  /** No two chunks of a pack share an id, so each id looks up its own text. */
  lemma NumberedLookup(packId: string, texts: seq<string>)
    ensures var r := NumberChunks(packId, texts);
            && (forall a, b :: 0 <= a < b < |r| ==> r[a].chunkId != r[b].chunkId)
            && (forall k :: 0 <= k < |r| ==> TextOf(r, r[k].chunkId) == texts[k])
  {
    var r := NumberChunks(packId, texts);
    forall a, b | 0 <= a < b < |r|
      ensures r[a].chunkId != r[b].chunkId
    {
      assert r[a].chunkId == ChunkId(packId, a + 1) && r[b].chunkId == ChunkId(packId, b + 1);
    }
    forall k | 0 <= k < |r|
      ensures TextOf(r, r[k].chunkId) == texts[k]
    {
      TextOfDistinct(r, k);
    }
  }

  /** The chunker's settings in the pack builder. */
  const MaxChars := 1200
  const Overlap := 150

  /** `build_pack`. `raw` is the text extracted from the fetched document
      (by the PDF or the HTML extractor, as the source type says), `split`
      stands for `re.split(r"\n\s*\n", ·)` and `retrievedAt` for the
      clock reading. */
  function BuildPack(source: Source, raw: string, split: string -> seq<string>, retrievedAt: string)
    : (r: Result<Pack>)
    ensures source.sourceType != "pdf" && source.sourceType != "html" ==>
              r == Err(UnknownSourceType(source.sourceType))
    ensures source.sourceType == "pdf" || source.sourceType == "html" ==>
              && r.Ok?
              && r.value.packId == source.packId
              && r.value.yearBand == source.yearBand
              && r.value.subject == source.subject
              && r.value.source == SourceInfo(source.url, source.publisher, source.licence, retrievedAt)
  {
    if source.sourceType != "pdf" && source.sourceType != "html" then
      Err(UnknownSourceType(source.sourceType))
    else
      var texts := ChunkText(split(NormalizeText(raw)), MaxChars, Overlap);
      Ok(Pack(source.packId, source.yearBand, source.subject,
              SourceInfo(source.url, source.publisher, source.licence, retrievedAt),
              NumberChunks(source.packId, texts)))
  }

  /** Numbering keeps the chunks' texts, so a paragraph that occurs in a
      text occurs in the numbered chunk for it. */
  lemma NumberedCover(packId: string, texts: seq<string>, paras: seq<string>, owners: seq<nat>)
    requires |owners| == |paras| && Ascends(owners)
    requires forall i :: 0 <= i < |paras| ==> owners[i] < |texts| && Contains(texts[owners[i]], paras[i])
    ensures var chunks := NumberChunks(packId, texts);
            exists owners: seq<nat> ::
              && |owners| == |paras|
              && Ascends(owners)
              && forall i :: 0 <= i < |paras| ==>
                   owners[i] < |chunks| && Contains(chunks[owners[i]].text, paras[i])
  {
    var chunks := NumberChunks(packId, texts);
    assert forall i :: 0 <= i < |paras| ==> chunks[owners[i]].text == texts[owners[i]];
  }

  /** The numbered chunks of some pieces of text: ids from 1, each id
      looking up its own text, no chunk empty, and every paragraph occurring
      in a chunk, the chunks taking the paragraphs in order. */
  lemma NumberedChunksContract(packId: string, pieces: seq<string>)
    ensures var chunks := NumberChunks(packId, ChunkText(pieces, MaxChars, Overlap));
            var paras := Paragraphs(pieces);
            && (forall k :: 0 <= k < |chunks| ==>
                  && chunks[k].chunkId == ChunkId(packId, k + 1)
                  && chunks[k].text != ""
                  && TextOf(chunks, chunks[k].chunkId) == chunks[k].text)
            && (paras == [] <==> chunks == [])
            && |chunks| <= |paras|
            && exists owners: seq<nat> ::
                 && |owners| == |paras|
                 && Ascends(owners)
                 && forall i :: 0 <= i < |paras| ==>
                      owners[i] < |chunks| && Contains(chunks[owners[i]].text, paras[i])
  {
    var texts := ChunkText(pieces, MaxChars, Overlap);
    ChunkTextContract(pieces, MaxChars, Overlap);
    NumberedLookup(packId, texts);
    NumberedCover(packId, texts, Paragraphs(pieces), ChunkOwners(pieces, MaxChars, Overlap));
  }

  /** What a built pack holds: the same guarantees, for the paragraphs of the
      normalised text. */
  lemma BuildPackContract(source: Source, raw: string, split: string -> seq<string>, retrievedAt: string,
                          pieces: seq<string>)
    requires source.sourceType == "pdf" || source.sourceType == "html"
    requires pieces == split(NormalizeText(raw))
    ensures var chunks := BuildPack(source, raw, split, retrievedAt).value.chunks;
            var paras := Paragraphs(pieces);
            && (forall k :: 0 <= k < |chunks| ==>
                  && chunks[k].chunkId == ChunkId(source.packId, k + 1)
                  && chunks[k].text != ""
                  && TextOf(chunks, chunks[k].chunkId) == chunks[k].text)
            && (paras == [] <==> chunks == [])
            && |chunks| <= |paras|
            && exists owners: seq<nat> ::
                 && |owners| == |paras|
                 && Ascends(owners)
                 && forall i :: 0 <= i < |paras| ==>
                      owners[i] < |chunks| && Contains(chunks[owners[i]].text, paras[i])
  {
    NumberedChunksContract(source.packId, pieces);
    assert BuildPack(source, raw, split, retrievedAt).value.chunks
             == NumberChunks(source.packId, ChunkText(pieces, MaxChars, Overlap));
  }
}
