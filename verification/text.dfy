/** Python string and list primitives the tutoring core relies on, written out
    so that their edge cases are part of the model: the whitespace class of
    `str.isspace` (which is also what `\s` matches in a `str` pattern),
    `strip`, `lower`, `replace`, `in` on strings, `join`, and slicing with
    negative bounds. */
module Text {

  /** Python's `str.isspace()` for one character. */
  predicate IsSpace(c: char) {
    || c == ' '
    || ('\t' <= c <= '\r')                  // \t \n \v \f \r
    || ('\U{001C}' <= c <= '\U{001F}')
    || c == '\U{0085}' || c == '\U{00A0}' || c == '\U{1680}'
    || ('\U{2000}' <= c <= '\U{200A}')
    || c == '\U{2028}' || c == '\U{2029}' || c == '\U{202F}' || c == '\U{205F}'
    || c == '\U{3000}'
  }

  predicate AllSpace(s: string) {
    forall i :: 0 <= i < |s| ==> IsSpace(s[i])
  }

  /** A joined string is all whitespace exactly when both pieces are. */
  lemma AllSpaceAppend(a: string, b: string)
    ensures AllSpace(a + b) <==> AllSpace(a) && AllSpace(b)
  {
    var s := a + b;
    assert forall i :: 0 <= i < |a| ==> s[i] == a[i];
    assert forall i :: 0 <= i < |b| ==> s[|a| + i] == b[i];
  }

  /** Neither end of `s` is whitespace: what `strip` guarantees. */
  predicate NoEdgeSpace(s: string) {
    |s| == 0 || (!IsSpace(s[0]) && !IsSpace(s[|s| - 1]))
  }

  /** The characters of `s` that are not whitespace, in order. */
  function NonSpace(s: string): string {
    if |s| == 0 then []
    else (if IsSpace(s[0]) then [] else [s[0]]) + NonSpace(s[1..])
  }

  lemma NonSpaceAppend(a: string, b: string)
    ensures NonSpace(a + b) == NonSpace(a) + NonSpace(b)
  {
    if |a| > 0 {
      assert (a + b)[1..] == a[1..] + b;
      NonSpaceAppend(a[1..], b);
    } else {
      assert a + b == b;
    }
  }

  lemma NonSpaceOfAllSpace(s: string)
    requires AllSpace(s)
    ensures NonSpace(s) == []
  {
    if |s| > 0 {
      NonSpaceOfAllSpace(s[1..]);
    }
  }

  /** How many whitespace characters `s` starts with: what `s.lstrip()` drops. */
  function LeadingSpace(s: string): (n: nat)
    ensures n <= |s|
    ensures AllSpace(s[..n])
    ensures n == |s| || !IsSpace(s[n])
  {
    if |s| > 0 && IsSpace(s[0]) then
      var n := 1 + LeadingSpace(s[1..]);
      assert s[..n] == [s[0]] + s[1..][..n - 1];
      n
    else 0
  }

  /** A string that starts with the whitespace run `w`, followed by a
      non-whitespace character or nothing, starts with exactly `|w|`
      whitespace characters. */
  lemma {:induction false} LeadingSpaceOfRun(w: string, b: string)
    requires AllSpace(w) && (|b| == 0 || !IsSpace(b[0]))
    ensures LeadingSpace(w + b) == |w|
    decreases |w|
  {
    if |w| == 0 {
      assert w + b == b;
    } else {
      assert (w + b)[1..] == w[1..] + b;
      LeadingSpaceOfRun(w[1..], b);
    }
  }

  /** `s.rstrip()` */
  function StripRight(s: string): (r: string)
    ensures |r| <= |s| && r == s[..|r|]
    ensures AllSpace(s[|r|..])
    ensures |r| == 0 || !IsSpace(r[|r| - 1])
  {
    if |s| > 0 && IsSpace(s[|s| - 1]) then
      var r := StripRight(s[..|s| - 1]);
      assert s[|r|..] == s[..|s| - 1][|r|..] + [s[|s| - 1]];
      r
    else s
  }

  /** `s.strip()`: `r` is `s` with its leading and trailing whitespace removed,
      and nothing else. */
  function Strip(s: string): (r: string)
    ensures NoEdgeSpace(r)
    ensures var a := LeadingSpace(s);
            a + |r| <= |s| && s[a..a + |r|] == r && AllSpace(s[a + |r|..])
    ensures AllSpace(s) <==> r == []
  {
    var a := LeadingSpace(s);
    var r := StripRight(s[a..]);
    assert s[a..a + |r|] == r;
    assert s[a + |r|..] == s[a..][|r|..];
    assert r == [] ==> AllSpace(s) by {
      if r == [] {
        assert s == s[..a] + s[a..];
      }
    }
    r
  }

  /** Strip only removes whitespace. */
  lemma StripNonSpace(s: string)
    ensures NonSpace(Strip(s)) == NonSpace(s)
  {
    var r := Strip(s);
    var a := LeadingSpace(s);
    assert s == s[..a] + r + s[a + |r|..];
    NonSpaceAppend(s[..a] + r, s[a + |r|..]);
    NonSpaceAppend(s[..a], r);
    NonSpaceOfAllSpace(s[..a]);
    NonSpaceOfAllSpace(s[a + |r|..]);
  }

  /** A string that ends in a non-whitespace character loses only its
      leading whitespace to stripping. */
  lemma StripLeadingOnly(s: string)
    requires |s| > 0 && !IsSpace(s[|s| - 1])
    ensures Strip(s) == s[LeadingSpace(s)..]
  {
    var a := LeadingSpace(s);
    var r := Strip(s);
    assert a + |r| == |s| by {
      if a + |r| < |s| {
        assert false;
      }
    }
  }

  /** Text after the first non-whitespace character of `t` does not change
      how much whitespace `t` starts with. */
  lemma LeadingSpaceExtended(t: string, x: string)
    requires !AllSpace(t)
    ensures LeadingSpace(t + x) == LeadingSpace(t) < |t|
  {
    var a := LeadingSpace(t);
    assert a < |t| by {
      if a == |t| {
        assert false;
      }
    }
    assert t + x == t[..a] + (t[a..] + x);
    LeadingSpaceOfRun(t[..a], t[a..] + x);
  }

  /** Stripping text that has a non-whitespace character and then ends in
      one keeps everything from its first non-whitespace character on. */
  lemma StripAfterText(t: string, x: string)
    requires !AllSpace(t) && |x| > 0 && !IsSpace(x[|x| - 1])
    ensures Strip(t + x) == t[LeadingSpace(t)..] + x
  {
    var s := t + x;
    var a := LeadingSpace(t);
    assert LeadingSpace(s) == a by {
      LeadingSpaceExtended(t, x);
    }
    assert Strip(s) == s[LeadingSpace(s)..] by {
      assert s[|s| - 1] == x[|x| - 1];
      StripLeadingOnly(s);
    }
    SliceAppend(t, x, a);
  }

  lemma AppendAssoc(a: string, b: string, c: string)
    ensures a + b + c == a + (b + c)
  {
  }

  lemma SliceAppend(t: string, x: string, a: nat)
    requires a <= |t|
    ensures (t + x)[a..] == t[a..] + x
  {
  }


  /** A string with no whitespace at either end is its own strip. */
  lemma StripNoEdge(s: string)
    requires NoEdgeSpace(s)
    ensures Strip(s) == s
  {
  }

  /** Lower-casing of one character; only ASCII letters are mapped. */
  function LowerChar(c: char): char {
    if 'A' <= c <= 'Z' then (c as int + 32) as char else c
  }

  function Lower(s: string): (r: string)
    ensures |r| == |s|
    ensures forall i :: 0 <= i < |s| ==> r[i] == LowerChar(s[i])
  {
    seq(|s|, i requires 0 <= i < |s| => LowerChar(s[i]))
  }

  /** `pat` occurs in `s` starting at position `i`. */
  predicate OccursAt(s: string, pat: string, i: int) {
    0 <= i && i + |pat| <= |s| && s[i..i + |pat|] == pat
  }

  /** Python's `pat in s` for strings. */
  predicate Contains(s: string, pat: string) {
    exists i :: 0 <= i <= |s| - |pat| && OccursAt(s, pat, i)
  }

  /** `s.replace(pat, rep)` for a non-empty `pat`: occurrences are replaced
      left to right without overlapping. */
  function Replace(s: string, pat: string, rep: string): string
    requires |pat| > 0
    decreases |s|
  {
    if |s| < |pat| then s
    else if s[..|pat|] == pat then rep + Replace(s[|pat|..], pat, rep)
    else [s[0]] + Replace(s[1..], pat, rep)
  }

  /** `s` without any occurrence of the character `c`. */
  function Remove(s: string, c: char): (r: string)
    ensures c !in r
    ensures |r| <= |s|
    ensures forall x :: x in r ==> x in s
  {
    if |s| == 0 then []
    else (if s[0] == c then [] else [s[0]]) + Remove(s[1..], c)
  }

  /** Removing a character from two pieces removes it from each: everything
      else is kept, in order. */
  lemma {:induction false} RemoveAppend(a: string, b: string, c: char)
    ensures Remove(a + b, c) == Remove(a, c) + Remove(b, c)
    decreases |a|
  {
    if |a| == 0 {
      assert a + b == b;
    } else {
      assert (a + b)[1..] == a[1..] + b;
      RemoveAppend(a[1..], b, c);
    }
  }


  /** Replacing a one-character string by nothing removes that character. */
  lemma {:induction false} ReplaceCharByNothing(s: string, c: char)
    ensures Replace(s, [c], "") == Remove(s, c)
    decreases |s|
  {
    if |s| >= 1 {
      ReplaceCharByNothing(s[1..], c);
      if s[..1] == [c] {
        assert s[0] == c;
      } else {
        assert s[0] != c;
      }
    }
  }

  /** `s` with every `c` changed to `d`. */
  function Subst(s: string, c: char, d: char): (r: string)
    ensures |r| == |s|
    ensures forall i :: 0 <= i < |s| ==> r[i] == if s[i] == c then d else s[i]
  {
    seq(|s|, i requires 0 <= i < |s| => if s[i] == c then d else s[i])
  }

  /** Replacing a one-character string by another changes that character. */
  lemma {:induction false} ReplaceCharByChar(s: string, c: char, d: char)
    ensures Replace(s, [c], [d]) == Subst(s, c, d)
    decreases |s|
  {
    if |s| >= 1 {
      ReplaceCharByChar(s[1..], c, d);
      assert Subst(s, c, d) == [if s[0] == c then d else s[0]] + Subst(s[1..], c, d);
      if s[..1] == [c] {
        assert s[0] == c;
      } else {
        assert s[0] != c;
      }
    }
  }

  /** `sep.join(parts)` */
  function Join(sep: string, parts: seq<string>): string {
    if |parts| == 0 then ""
    else if |parts| == 1 then parts[0]
    else parts[0] + sep + Join(sep, parts[1..])
  }

  /** The position Python uses for slice bound `k` of a sequence of length `n`:
      negative bounds count from the end, and both are clipped to `[0, n]`. */
  function SliceBound(k: int, n: nat): (j: nat)
    ensures j <= n
    ensures 0 <= k ==> j == if k < n then k else n
    ensures k < 0 ==> j == if n + k < 0 then 0 else n + k
  {
    if k < 0 then (if n + k < 0 then 0 else n + k)
    else if k > n then n else k
  }

  /** `s[:k]` */
  function Take<T>(s: seq<T>, k: int): seq<T> {
    s[..SliceBound(k, |s|)]
  }

  /** `s[:k]` is the first `k` elements, as many as there are, for `k >= 0`,
      and all but the last `-k` for a negative `k`. */
  lemma TakePrefix<T>(s: seq<T>, k: int)
    ensures |Take(s, k)| <= |s|
    ensures 0 <= k ==> |Take(s, k)| == if k < |s| then k else |s|
    ensures k < 0 ==> |Take(s, k)| == if |s| + k < 0 then 0 else |s| + k
    ensures forall i :: 0 <= i < |Take(s, k)| ==> Take(s, k)[i] == s[i]
  {
  }

  /** `s[k:]` */
  function Drop<T>(s: seq<T>, k: int): seq<T> {
    s[SliceBound(k, |s|)..]
  }

  /** The excerpt idiom shared by both retrievers and the student memory:
      `t[:max - 3] + "..."` when `t` is longer than `max`, `t` otherwise. */
  function Ellipsize(t: string, max: int): (r: string)
    ensures |t| <= max ==> r == t
    ensures 3 <= max < |t| ==> |r| == max && r == t[..max - 3] + "..."
    ensures 3 <= max ==> |r| <= max
  {
    if |t| > max then Take(t, max - 3) + "..." else t
  }
}
