/** The clean-up a reply goes through before the offline speech engine reads
    it aloud: markdown emphasis markers are dropped, common fractions are
    spelled out in words, bullet and hyphen characters are dropped, every
    run of whitespace becomes one space, and the ends are stripped. The
    engine itself is not modelled. */
module Speech {
  import opened Text

  // ---------------------------------------------------------------------
  // Facts about `replace`.

  /** A pattern with a character that `s` lacks does not occur in `s`, so
      replacing it changes nothing. */
  lemma {:induction false} ReplaceAbsent(s: string, pat: string, rep: string, c: char)
    requires |pat| > 0 && c in pat && c !in s
    ensures Replace(s, pat, rep) == s
    decreases |s|
  {
    if |s| >= |pat| {
      ReplaceAbsent(s[1..], pat, rep, c);
      assert s == [s[0]] + s[1..];
    }
  }

  /** `replace` brings in no character that neither `s` nor the
      replacement has. */
  lemma {:induction false} ReplaceKeepsOut(s: string, pat: string, rep: string, c: char)
    requires |pat| > 0 && c !in s && c !in rep
    ensures c !in Replace(s, pat, rep)
    decreases |s|
  {
    if |s| >= |pat| {
      if s[..|pat|] == pat {
        ReplaceKeepsOut(s[|pat|..], pat, rep, c);
      } else {
        ReplaceKeepsOut(s[1..], pat, rep, c);
      }
    }
  }

  // ---------------------------------------------------------------------
  // The stages of the clean-up.

  /** Dropping the `**` pairs first changes nothing about which characters
      are left once every `*` is dropped. */
  lemma {:induction false} RemovePairs(t: string)
    ensures Remove(Replace(t, "**", ""), '*') == Remove(t, '*')
    decreases |t|
  {
    if |t| >= 2 {
      if t[..2] == "**" {
        RemovePairs(t[2..]);
        assert Replace(t, "**", "") == "" + Replace(t[2..], "**", "");
        assert t == "**" + t[2..];
        RemoveAppend("**", t[2..], '*');
        assert Remove("**", '*') == "" by {
          assert "**"[1..] == "*";
          assert "*"[1..] == "";
        }
        assert Remove(t, '*') == Remove(t[2..], '*');
        assert Replace(t, "**", "") == Replace(t[2..], "**", "");
      } else {
        RemovePairs(t[1..]);
        var r := Replace(t[1..], "**", "");
        assert Replace(t, "**", "") == [t[0]] + r;
        RemoveAppend([t[0]], r, '*');
        assert t == [t[0]] + t[1..];
        RemoveAppend([t[0]], t[1..], '*');
      }
    }
  }

  /** Drops `**` and then `*`: exactly the asterisks are dropped, and every
      other character is kept, in order. */
  function StripMarkdown(t: string): (r: string)
    ensures r == Remove(t, '*')
    ensures '*' !in r
  {
    var r := Replace(Replace(t, "**", ""), "*", "");
    ReplaceCharByNothing(Replace(t, "**", ""), '*');
    RemovePairs(t);
    r
  }

  /** The fraction map, in its iteration order, each fraction with the words
      it is read as. */
  const Fractions: seq<(string, string)> := [
    ("1/2", "one half"), ("1/3", "one third"), ("2/3", "two thirds"),
    ("1/4", "one quarter"), ("3/4", "three quarters"), ("1/5", "one fifth"),
    ("1/6", "one sixth"), ("1/8", "one eighth"), ("3/8", "three eighths")]

  /** Lower-case letters and spaces only. */
  predicate Words(s: string) {
    forall i :: 0 <= i < |s| ==> 'a' <= s[i] <= 'z' || s[i] == ' '
  }

  lemma WordsLack(s: string, c: char)
    requires Words(s) && !('a' <= c <= 'z') && c != ' '
    ensures c !in s
  {
  }

  /** Every fraction of the map is a digit, a slash and a digit; its
      reading is words. */
  lemma FractionsShape()
    ensures forall k :: 0 <= k < |Fractions| ==>
              && |Fractions[k].0| == 3 && Fractions[k].0[1] == '/' && Fractions[k].0[0] != '/'
              && Words(Fractions[k].1)
  {
  }

  /** No fraction's reading has an asterisk, bullet, hyphen or slash. */
  lemma FractionWords()
    ensures forall k :: 0 <= k < |Fractions| ==>
              && |Fractions[k].0| > 0 && '/' in Fractions[k].0
              && '*' !in Fractions[k].1 && '•' !in Fractions[k].1 && '-' !in Fractions[k].1
              && '/' !in Fractions[k].1
  {
    FractionsShape();
    forall k | 0 <= k < |Fractions|
      ensures '/' in Fractions[k].0
      ensures '*' !in Fractions[k].1 && '•' !in Fractions[k].1 && '-' !in Fractions[k].1
      ensures '/' !in Fractions[k].1
    {
      assert Fractions[k].0[1] == '/';
      WordsLack(Fractions[k].1, '*');
      WordsLack(Fractions[k].1, '•');
      WordsLack(Fractions[k].1, '-');
      WordsLack(Fractions[k].1, '/');
    }
  }

  /** One `replace` per pair, in order, each on the output of the last. */
  function ReplaceAll(s: string, pairs: seq<(string, string)>): string
    requires forall k :: 0 <= k < |pairs| ==> |pairs[k].0| > 0
    decreases |pairs|
  {
    if |pairs| == 0 then s
    else ReplaceAll(Replace(s, pairs[0].0, pairs[0].1), pairs[1..])
  }

  /** A character absent from the text and from every replacement stays
      absent. */
  lemma {:induction false} ReplaceAllKeepsOut(s: string, pairs: seq<(string, string)>, c: char)
    requires forall k :: 0 <= k < |pairs| ==> |pairs[k].0| > 0 && c !in pairs[k].1
    requires c !in s
    ensures c !in ReplaceAll(s, pairs)
    decreases |pairs|
  {
    if |pairs| > 0 {
      ReplaceKeepsOut(s, pairs[0].0, pairs[0].1, c);
      ReplaceAllKeepsOut(Replace(s, pairs[0].0, pairs[0].1), pairs[1..], c);
    }
  }

  /** A text without the character every pattern has is left as it is. */
  lemma {:induction false} ReplaceAllAbsent(s: string, pairs: seq<(string, string)>, c: char)
    requires forall k :: 0 <= k < |pairs| ==> |pairs[k].0| > 0 && c in pairs[k].0 && c !in pairs[k].1
    requires c !in s
    ensures ReplaceAll(s, pairs) == s
    decreases |pairs|
  {
    if |pairs| > 0 {
      ReplaceAbsent(s, pairs[0].0, pairs[0].1, c);
      ReplaceAllAbsent(s, pairs[1..], c);
    }
  }

  /** Spells out every fraction of the map, in the map's order. */
  function SpeakFractions(t: string): string {
    FractionWords();
    ReplaceAll(t, Fractions)
  }

  /** A three-character text that is none of the first `k` patterns comes
      through their replacements unchanged. */
  lemma {:induction false} ReplaceAllSkips(s: string, pairs: seq<(string, string)>, k: nat)
    requires forall j :: 0 <= j < |pairs| ==> |pairs[j].0| > 0
    requires k <= |pairs| && |s| == 3
    requires forall j :: 0 <= j < k ==> |pairs[j].0| == 3 && pairs[j].0 != s
    ensures ReplaceAll(s, pairs) == ReplaceAll(s, pairs[k..])
    decreases k
  {
    if k > 0 {
      assert s[1..][1..][1..] == [];
      assert Replace(s, pairs[0].0, pairs[0].1) == s;
      ReplaceAllSkips(s, pairs[1..], k - 1);
      assert pairs[1..][k - 1..] == pairs[k..];
    }
  }

  /** No fraction appears twice in the map. */
  lemma FractionsDistinct()
    ensures forall i, j :: 0 <= i < j < |Fractions| ==> Fractions[i].0 != Fractions[j].0
  {
  }

  /** Replacing a pattern in exactly that pattern gives the replacement. */
  lemma ReplaceWhole(pat: string, rep: string)
    requires |pat| > 0
    ensures Replace(pat, pat, rep) == rep
  {
    assert pat[|pat|..] == [];
  }

  /** A text that is exactly one of several distinct three-character
      patterns, all sharing a character their replacements lack, becomes
      that pattern's replacement. */
  lemma ReplaceAllAt(pairs: seq<(string, string)>, k: nat, c: char)
    requires k < |pairs|
    requires forall j :: 0 <= j < |pairs| ==> |pairs[j].0| == 3 && c in pairs[j].0 && c !in pairs[j].1
    requires forall i, j :: 0 <= i < j < |pairs| ==> pairs[i].0 != pairs[j].0
    ensures ReplaceAll(pairs[k].0, pairs) == pairs[k].1
  {
    var f := pairs[k].0;
    var w := pairs[k].1;
    ReplaceAllSkips(f, pairs, k);
    ReplaceWhole(f, w);
    assert ReplaceAll(f, pairs[k..]) == ReplaceAll(w, pairs[k + 1..]);
    ReplaceAllAbsent(w, pairs[k + 1..], c);
  }

  /** Each fraction of the map, on its own, is read as its words. */
  lemma SpeakOneFraction(k: nat)
    requires k < |Fractions|
    ensures SpeakFractions(Fractions[k].0) == Fractions[k].1
  {
    FractionWords();
    FractionsShape();
    FractionsDistinct();
    ReplaceAllAt(Fractions, k, '/');
  }

  /** A character where the pattern does not start is kept as it is. */
  lemma ReplaceStep(ch: char, t: string, pat: string, rep: string)
    requires |pat| > 0
    requires |t| + 1 < |pat| || ([ch] + t)[..|pat|] != pat
    ensures Replace([ch] + t, pat, rep) == [ch] + Replace(t, pat, rep)
  {
    assert ([ch] + t)[1..] == t;
  }

  /** The three characters `x` at the head of a text whose only `c` is
      `x[1]`: a three-character pattern with `c` in the middle matches
      there exactly when it is `x`, and nowhere after. */
  lemma ReplaceAtHead(x: string, b: string, pat: string, rep: string, c: char)
    requires |x| == 3 && x[1] == c && x[0] != c
    requires |pat| == 3 && pat[1] == c && pat[0] != c
    requires c !in b
    ensures Replace(x + b, pat, rep) == (if x == pat then rep else x) + b
  {
    ReplaceAbsent(b, pat, rep, c);
    if x == pat {
      assert (x + b)[..3] == pat && (x + b)[3..] == b;
    } else {
      var t2 := [x[2]] + b;
      if |b| > 0 {
        assert t2[1] == b[0] && b[0] in b;
      }
      ReplaceStep(x[2], b, pat, rep);
      assert ([c] + t2)[0] == c;
      ReplaceStep(c, t2, pat, rep);
      assert x + b == [x[0]] + ([c] + t2);
      assert (x + b)[..3] == x;
      ReplaceStep(x[0], [c] + t2, pat, rep);
      assert x == [x[0], c, x[2]];
    }
  }

  /** In a text whose only `c` is the middle of the three characters `x`,
      a three-character pattern with `c` in the middle (and not first) can
      only occur as `x` itself: replacing it replaces `x` when `x` is the
      pattern and changes nothing otherwise. */
  lemma {:induction false} ReplaceAround(a: string, x: string, b: string, pat: string, rep: string, c: char)
    requires |x| == 3 && x[1] == c && x[0] != c
    requires |pat| == 3 && pat[1] == c && pat[0] != c
    requires c !in a && c !in b
    ensures Replace(a + x + b, pat, rep) == a + (if x == pat then rep else x) + b
    decreases |a|
  {
    var s := a + x + b;
    if |a| == 0 {
      assert s == x + b;
      ReplaceAtHead(x, b, pat, rep, c);
    } else {
      var y := if x == pat then rep else x;
      var t := a[1..] + x + b;
      assert s == [a[0]] + t;
      assert t[0] != c by {
        if |a| == 1 { assert t[0] == x[0]; } else { assert t[0] == a[1] && a[1] in a; }
      }
      assert ([a[0]] + t)[..3][1] != pat[1];
      ReplaceStep(a[0], t, pat, rep);
      ReplaceAround(a[1..], x, b, pat, rep, c);
      assert a + y + b == [a[0]] + (a[1..] + y + b);
    }
  }

  /** The pairs' patterns are distinct three-character strings with `c` in the
      middle, and no replacement has `c`: a text whose only `c` is in the
      middle of pattern `k` has that pattern replaced and nothing else
      changed. */
  lemma {:induction false} ReplaceAllAround(a: string, b: string, pairs: seq<(string, string)>, k: nat, c: char)
    requires k < |pairs|
    requires forall j :: 0 <= j < |pairs| ==>
               |pairs[j].0| == 3 && pairs[j].0[1] == c && pairs[j].0[0] != c && c !in pairs[j].1
    requires forall i, j :: 0 <= i < j < |pairs| ==> pairs[i].0 != pairs[j].0
    requires c !in a && c !in b
    ensures ReplaceAll(a + pairs[k].0 + b, pairs) == a + pairs[k].1 + b
    decreases k
  {
    var x := pairs[k].0;
    ReplaceAround(a, x, b, pairs[0].0, pairs[0].1, c);
    if k == 0 {
      var t := a + pairs[0].1 + b;
      assert c !in t;
      assert forall j :: 0 <= j < |pairs[1..]| ==> pairs[1..][j] == pairs[j + 1];
      ReplaceAllAbsent(t, pairs[1..], c);
    } else {
      assert pairs[1..][k - 1] == pairs[k];
      ReplaceAllAround(a, b, pairs[1..], k - 1, c);
    }
  }

  /** A fraction of the map inside a text with no other slash is read as its
      words, and the rest of the text is kept. */
  lemma SpeakFractionInText(a: string, k: nat, b: string)
    requires k < |Fractions| && '/' !in a && '/' !in b
    ensures SpeakFractions(a + Fractions[k].0 + b) == a + Fractions[k].1 + b
  {
    FractionWords();
    FractionsShape();
    FractionsDistinct();
    ReplaceAllAround(a, b, Fractions, k, '/');
  }

  /** Drops the bullet character and then every hyphen, and keeps every
      other character, in order. */
  function DropBullets(t: string): (r: string)
    ensures r == Remove(Remove(t, '•'), '-')
    ensures '•' !in r && '-' !in r
  {
    var u := Replace(t, "•", "");
    ReplaceCharByNothing(t, '•');
    ReplaceCharByNothing(u, '-');
    Replace(u, "-", "")
  }

  // ---------------------------------------------------------------------
  // Collapsing whitespace.

  /** The only whitespace is the plain space, and no two spaces are
      adjacent. */
  predicate Collapsed(s: string) {
    && (forall i :: 0 <= i < |s| && IsSpace(s[i]) ==> s[i] == ' ')
    && (forall i :: 0 < i < |s| && s[i] == ' ' ==> s[i - 1] != ' ')
  }

  /** `re.sub(r"\s+", " ", s)`: every maximal run of whitespace becomes one
      space; `r` starts with a space exactly when `s` starts with
      whitespace, and is whitespace only exactly when `s` is. */
  function CollapseSpace(s: string): (r: string)
    ensures Collapsed(r)
    ensures |s| > 0 ==> |r| > 0 && (r[0] == ' ' <==> IsSpace(s[0]))
    ensures AllSpace(r) <==> AllSpace(s)
    decreases |s|
  {
    if |s| == 0 then []
    else if IsSpace(s[0]) then
      var n := LeadingSpace(s);
      var rest := CollapseSpace(s[n..]);
      var r := " " + rest;
      assert forall i :: 1 <= i < |r| ==> r[i] == rest[i - 1];
      assert AllSpace(r) <==> AllSpace(rest) by {
        AllSpaceAppend(" ", rest);
      }
      assert AllSpace(s) <==> AllSpace(s[n..]) by {
        assert s == s[..n] + s[n..];
        AllSpaceAppend(s[..n], s[n..]);
      }
      r
    else
      var rest := CollapseSpace(s[1..]);
      var r := [s[0]] + rest;
      assert forall i :: 1 <= i < |r| ==> r[i] == rest[i - 1];
      assert r[0] == s[0];
      r
  }

  /** A maximal whitespace run becomes exactly one space. */
  lemma CollapseRun(w: string, b: string)
    requires |w| > 0 && AllSpace(w) && (|b| == 0 || !IsSpace(b[0]))
    ensures CollapseSpace(w + b) == " " + CollapseSpace(b)
  {
    LeadingSpaceOfRun(w, b);
    assert (w + b)[|w|..] == b;
  }

  /** A character that is not whitespace is kept as it is. */
  lemma CollapseChar(c: char, b: string)
    requires !IsSpace(c)
    ensures CollapseSpace([c] + b) == [c] + CollapseSpace(b)
  {
    assert ([c] + b)[1..] == b;
  }

  /** A prefix without whitespace is kept as it is. */
  lemma {:induction false} CollapseWord(a: string, b: string)
    requires forall i :: 0 <= i < |a| ==> !IsSpace(a[i])
    ensures CollapseSpace(a + b) == a + CollapseSpace(b)
    decreases |a|
  {
    if |a| == 0 {
      assert a + b == b;
    } else {
      var t := a[1..] + b;
      var cb := CollapseSpace(b);
      assert a + b == [a[0]] + t by { assert a == [a[0]] + a[1..]; }
      assert a + cb == [a[0]] + (a[1..] + cb) by { assert a == [a[0]] + a[1..]; }
      CollapseWord(a[1..], b);
      CollapseChar(a[0], t);
    }
  }

  /** Collapsing keeps every character that is not whitespace, in order. */
  lemma {:induction false} CollapseNonSpace(s: string)
    ensures NonSpace(CollapseSpace(s)) == NonSpace(s)
    decreases |s|
  {
    if |s| > 0 {
      var r := CollapseSpace(s);
      if IsSpace(s[0]) {
        var n := LeadingSpace(s);
        CollapseNonSpace(s[n..]);
        assert r[1..] == CollapseSpace(s[n..]);
        assert s == s[..n] + s[n..];
        NonSpaceAppend(s[..n], s[n..]);
        NonSpaceOfAllSpace(s[..n]);
      } else {
        CollapseNonSpace(s[1..]);
        assert r[1..] == CollapseSpace(s[1..]);
      }
    }
  }

  /** Collapsing leaves a string alone exactly when it is already collapsed. */
  lemma {:induction false} CollapseFixpoint(s: string)
    ensures CollapseSpace(s) == s <==> Collapsed(s)
    decreases |s|
  {
    if |s| > 0 && Collapsed(s) {
      assert Collapsed(s[1..]);
      CollapseFixpoint(s[1..]);
      if IsSpace(s[0]) {
        assert LeadingSpace(s) == 1 by {
          if |s| > 1 {
            assert s[1] != ' ';
          }
        }
      }
    }
  }

  /** Collapsing twice is collapsing once. */
  lemma CollapseIdempotent(s: string)
    ensures CollapseSpace(CollapseSpace(s)) == CollapseSpace(s)
  {
    CollapseFixpoint(CollapseSpace(s));
  }

  /** A piece of a collapsed string is collapsed. */
  lemma CollapsedSlice(s: string, a: nat, b: nat)
    requires a <= b <= |s| && Collapsed(s)
    ensures Collapsed(s[a..b])
  {
    var t := s[a..b];
    assert forall i :: 0 <= i < |t| ==> t[i] == s[a + i];
  }

  // ---------------------------------------------------------------------
  // The whole clean-up.

  /** `_sanitize_for_speech` */
  function SanitizeForSpeech(text: string): string {
    Strip(CollapseSpace(DropBullets(SpeakFractions(StripMarkdown(text)))))
  }

  /** Stripping brings in no character. */
  lemma StripChars(s: string)
    ensures forall x :: x in Strip(s) ==> x in s
  {
    var r := Strip(s);
    var a := LeadingSpace(s);
    assert forall i :: 0 <= i < |r| ==> r[i] == s[a + i];
  }

  /** The text read aloud has no asterisk, bullet or hyphen. */
  lemma SanitizeNoMarks(text: string)
    ensures var r := SanitizeForSpeech(text);
            '*' !in r && '•' !in r && '-' !in r
  {
    var m := StripMarkdown(text);
    FractionWords();
    ReplaceAllKeepsOut(m, Fractions, '*');
    var f := SpeakFractions(m);
    var d := DropBullets(f);
    ReplaceKeepsOut(f, "•", "", '*');
    ReplaceKeepsOut(Replace(f, "•", ""), "-", "", '*');
    CollapseChars(d);
    StripChars(CollapseSpace(d));
  }

  /** Collapsing and then stripping any text leaves single inner spaces,
      no space at either end, and every other character in order. */
  lemma CollapseStrip(d: string)
    ensures var r := Strip(CollapseSpace(d));
            Collapsed(r) && NoEdgeSpace(r) && NonSpace(r) == NonSpace(d)
  {
    var c := CollapseSpace(d);
    var r := Strip(c);
    var a := LeadingSpace(c);
    CollapsedSlice(c, a, a + |r|);
    CollapseNonSpace(d);
    StripNonSpace(c);
  }

  /** Its only whitespace is single spaces between words, and it keeps every
      other character of the text after the fractions are spelled out, in
      order. */
  lemma SanitizeSpacing(text: string)
    ensures var r := SanitizeForSpeech(text);
            && Collapsed(r) && NoEdgeSpace(r)
            && NonSpace(r) == NonSpace(DropBullets(SpeakFractions(StripMarkdown(text))))
  {
    CollapseStrip(DropBullets(SpeakFractions(StripMarkdown(text))));
  }

  /** Collapsing brings in no character except the space. */
  lemma {:induction false} CollapseChars(s: string)
    ensures forall x :: x in CollapseSpace(s) && x != ' ' ==> x in s
    decreases |s|
  {
    if |s| > 0 {
      if IsSpace(s[0]) {
        var n := LeadingSpace(s);
        CollapseChars(s[n..]);
      } else {
        CollapseChars(s[1..]);
      }
    }
  }

  /** A text of whitespace only is read as nothing at all. */
  lemma SanitizeAllSpace(text: string)
    requires AllSpace(text)
    ensures SanitizeForSpeech(text) == ""
  {
    assert '*' !in text && '/' !in text && '•' !in text && '-' !in text;
    ReplaceAbsent(text, "**", "", '*');
    ReplaceAbsent(text, "*", "", '*');
    FractionWords();
    ReplaceAllAbsent(text, Fractions, '/');
    ReplaceAbsent(text, "•", "", '•');
    ReplaceAbsent(text, "-", "", '-');
  }

  /** Text with none of the characters the clean-up acts on, already
      collapsed and stripped. */
  predicate Plain(text: string) {
    && '*' !in text && '/' !in text && '•' !in text && '-' !in text
    && Collapsed(text) && NoEdgeSpace(text)
  }

  /** Plain text is read exactly as written, and the clean-up's output,
      when it has no slash left, is plain: cleaning it again changes
      nothing. */
  lemma SanitizePlain(text: string)
    ensures Plain(text) ==> SanitizeForSpeech(text) == text
    ensures '/' !in SanitizeForSpeech(text) ==> Plain(SanitizeForSpeech(text))
  {
    if Plain(text) {
      ReplaceAbsent(text, "**", "", '*');
      ReplaceAbsent(text, "*", "", '*');
      FractionsShape();
      ReplaceAllAbsent(text, Fractions, '/');
      ReplaceAbsent(text, "•", "", '•');
      ReplaceAbsent(text, "-", "", '-');
      CollapseFixpoint(text);
      StripNoEdge(text);
    }
    SanitizeNoMarks(text);
    SanitizeSpacing(text);
  }

  /** A run of characters with no whitespace and none of the marks the
      clean-up removes or rewrites. */
  predicate Unmarked(s: string) {
    forall i :: 0 <= i < |s| ==>
      !IsSpace(s[i]) && s[i] != '*' && s[i] != '/' && s[i] != '•' && s[i] != '-'
  }

  /** A text with no asterisk, slash, bullet or hyphen passes the mark
      removal and the fraction reading unchanged. */
  lemma MarksAbsent(t: string)
    requires '*' !in t && '/' !in t && '•' !in t && '-' !in t
    ensures DropBullets(SpeakFractions(StripMarkdown(t))) == t
  {
    ReplaceAbsent(t, "**", "", '*');
    ReplaceAbsent(t, "*", "", '*');
    FractionsShape();
    ReplaceAllAbsent(t, Fractions, '/');
    ReplaceAbsent(t, "•", "", '•');
    ReplaceAbsent(t, "-", "", '-');
  }

  /** Collapsing the whitespace between two words leaves one space. */
  lemma CollapseBetween(x: string, w: string, y: string)
    requires Unmarked(x) && Unmarked(y) && |y| > 0
    requires |w| > 0 && AllSpace(w)
    ensures CollapseSpace(x + w + y) == x + " " + y
  {
    var cy := CollapseSpace(y);
    assert x + w + y == x + (w + y);
    CollapseWord(x, w + y);
    CollapseRun(w, y);
    assert cy == y by {
      CollapseWord(y, "");
      assert y + "" == y;
      assert CollapseSpace("") == "";
    }
    assert x + (" " + y) == x + " " + y;
  }

  /** Whitespace carries none of the marks. */
  lemma MarksAbsentJoin(x: string, w: string, y: string)
    requires Unmarked(x) && Unmarked(y) && AllSpace(w)
    ensures var t := x + w + y; '*' !in t && '/' !in t && '•' !in t && '-' !in t
  {
    var t := x + w + y;
    forall i | 0 <= i < |t|
      ensures t[i] != '*' && t[i] != '/' && t[i] != '•' && t[i] != '-'
    {
      if i < |x| { assert t[i] == x[i]; }
      else if i < |x| + |w| { assert t[i] == w[i - |x|]; }
      else { assert t[i] == y[i - |x| - |w|]; }
    }
  }

  /** Two words separated by any non-empty run of whitespace are read with
      exactly one space between them. */
  lemma SanitizeJoinsWords(x: string, w: string, y: string)
    requires |x| > 0 && |y| > 0 && Unmarked(x) && Unmarked(y)
    requires |w| > 0 && AllSpace(w)
    ensures SanitizeForSpeech(x + w + y) == x + " " + y
  {
    var t := x + w + y;
    MarksAbsentJoin(x, w, y);
    MarksAbsent(t);
    CollapseBetween(x, w, y);
    var r := x + " " + y;
    assert NoEdgeSpace(r) by { assert r[0] == x[0]; assert r[|r| - 1] == y[|y| - 1]; }
    StripNoEdge(r);
  }
}
