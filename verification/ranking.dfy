/** Python's `list.sort(key=score, reverse=True)` on scored items: a stable
    sort into non-increasing score order. Both retrievers and the student
    memory summary rank through it. */
module Ranking {

  datatype Ranked<T> = Ranked(score: real, item: T)

  predicate NonIncreasing<T>(s: seq<Ranked<T>>) {
    forall i, j :: 0 <= i < j < |s| ==> s[i].score >= s[j].score
  }

  /** The items of `s` that score exactly `v`, in their order in `s`. */
  function WithScore<T>(s: seq<Ranked<T>>, v: real): seq<Ranked<T>> {
    if |s| == 0 then []
    else (if s[0].score == v then [s[0]] else []) + WithScore(s[1..], v)
  }

  /** `r` is `s` sorted by non-increasing score with ties in their order in
      `s`: the contract of a stable descending sort. */
  ghost predicate StableDescending<T>(s: seq<Ranked<T>>, r: seq<Ranked<T>>) {
    NonIncreasing(r) && forall v :: WithScore(r, v) == WithScore(s, v)
  }

  lemma NonIncreasingCons<T>(h: Ranked<T>, t: seq<Ranked<T>>)
    requires NonIncreasing(t) && (|t| == 0 || t[0].score <= h.score)
    ensures NonIncreasing([h] + t)
  {
    var r := [h] + t;
    forall i, j | 0 <= i < j < |r|
      ensures r[i].score >= r[j].score
    {
      if i == 0 {
        assert r[j] == t[j - 1];
        assert t[0].score >= t[j - 1].score;
      } else {
        assert r[i] == t[i - 1] && r[j] == t[j - 1];
      }
    }
  }

  /** Places `x` before the first item that does not outscore it. */
  function Insert<T>(x: Ranked<T>, s: seq<Ranked<T>>): (r: seq<Ranked<T>>)
    requires NonIncreasing(s)
    ensures NonIncreasing(r)
    ensures multiset(r) == multiset(s) + multiset{x}
    ensures r[0] == x || (|s| > 0 && r[0] == s[0])
    decreases |s|
  {
    if |s| == 0 || s[0].score <= x.score then
      NonIncreasingCons(x, s);
      [x] + s
    else
      var t := s[1..];
      assert NonIncreasing(t) by {
        forall i, j | 0 <= i < j < |t| ensures t[i].score >= t[j].score {
          assert t[i] == s[i + 1] && t[j] == s[j + 1];
        }
      }
      var rest := Insert(x, t);
      assert |t| > 0 ==> s[0].score >= t[0].score by {
        if |t| > 0 { assert t[0] == s[1]; }
      }
      NonIncreasingCons(s[0], rest);
      assert s == [s[0]] + t;
      [s[0]] + rest
  }

  /** Inserting `x` adds it in front of the items with its score and changes
      nothing else. */
  lemma {:induction false} InsertWithScore<T>(x: Ranked<T>, s: seq<Ranked<T>>, v: real)
    requires NonIncreasing(s)
    ensures WithScore(Insert(x, s), v) == (if x.score == v then [x] else []) + WithScore(s, v)
    decreases |s|
  {
    var r := Insert(x, s);
    if |s| == 0 || s[0].score <= x.score {
      assert r == [x] + s;
      assert r[1..] == s;
    } else {
      var t := s[1..];
      var rest := Insert(x, t);
      assert r == [s[0]] + rest;
      assert r[1..] == rest;
      InsertWithScore(x, t, v);
      assert WithScore(r, v) == (if s[0].score == v then [s[0]] else []) + WithScore(rest, v);
      assert WithScore(s, v) == (if s[0].score == v then [s[0]] else []) + WithScore(t, v);
    }
  }

  /** The stable descending sort (an insertion sort from the back). */
  function SortDesc<T>(s: seq<Ranked<T>>): (r: seq<Ranked<T>>)
    ensures |r| == |s|
    ensures multiset(r) == multiset(s)
    ensures NonIncreasing(r)
  {
    if |s| == 0 then []
    else
      var r := Insert(s[0], SortDesc(s[1..]));
      assert s == [s[0]] + s[1..];
      assert |r| == |multiset(r)|;
      r
  }

  /** Sorting keeps, for every score, the items with that score in their
      original order. */
  lemma {:induction false} SortDescWithScore<T>(s: seq<Ranked<T>>, v: real)
    ensures WithScore(SortDesc(s), v) == WithScore(s, v)
  {
    if |s| > 0 {
      InsertWithScore(s[0], SortDesc(s[1..]), v);
      SortDescWithScore(s[1..], v);
    }
  }

  lemma SortDescIsStable<T>(s: seq<Ranked<T>>)
    ensures StableDescending(s, SortDesc(s))
  {
    forall v ensures WithScore(SortDesc(s), v) == WithScore(s, v) {
      SortDescWithScore(s, v);
    }
  }

  lemma WithScoreMember<T>(r: seq<Ranked<T>>, v: real)
    requires WithScore(r, v) != []
    ensures exists i :: 0 <= i < |r| && r[i].score == v
  {
    if r[0].score != v {
      WithScoreMember(r[1..], v);
      var i :| 0 <= i < |r[1..]| && r[1..][i].score == v;
      assert r[i + 1].score == v;
    }
  }

  /** Removing the common head of two rankings keeps their per-score lists equal. */
  lemma WithScoreTail<T>(a: seq<Ranked<T>>, b: seq<Ranked<T>>, v: real)
    requires |a| > 0 && |b| > 0 && a[0] == b[0]
    requires WithScore(a, v) == WithScore(b, v)
    ensures WithScore(a[1..], v) == WithScore(b[1..], v)
  {
    var wa := WithScore(a[1..], v);
    var wb := WithScore(b[1..], v);
    var head := if a[0].score == v then [a[0]] else [];
    assert WithScore(a, v) == head + wa;
    assert WithScore(b, v) == head + wb;
    assert wa == (head + wa)[|head|..];
    assert wb == (head + wb)[|head|..];
  }

  lemma WithScoreHead<T>(a: seq<Ranked<T>>)
    requires |a| > 0
    ensures WithScore(a, a[0].score) == [a[0]] + WithScore(a[1..], a[0].score)
  {
  }

  lemma NonEmptyTogether<T>(a: seq<Ranked<T>>, b: seq<Ranked<T>>)
    requires |a| > 0 ==> WithScore(a, a[0].score) == WithScore(b, a[0].score)
    ensures |a| > 0 ==> |b| > 0
  {
    if |a| > 0 {
      WithScoreHead(a);
      assert WithScore(b, a[0].score) != [];
    }
  }

  /** The head of one ranking scores no more than the head of another with the
      same items at the first one's head score. */
  lemma HeadsAgree<T>(a: seq<Ranked<T>>, b: seq<Ranked<T>>)
    requires |a| > 0 && |b| > 0 && NonIncreasing(b)
    requires WithScore(a, a[0].score) == WithScore(b, a[0].score)
    ensures b[0].score >= a[0].score
  {
    var m := a[0].score;
    WithScoreHead(a);
    WithScoreMember(b, m);
    var i :| 0 <= i < |b| && b[i].score == m;
    if i > 0 {
      assert b[0].score >= b[i].score;
    }
  }

  /** A stable descending order is unique: two non-increasing arrangements
      with the same per-score order are equal. */
  lemma {:induction false} StableDescendingUnique<T>(a: seq<Ranked<T>>, b: seq<Ranked<T>>)
    requires NonIncreasing(a) && NonIncreasing(b)
    requires forall v :: WithScore(a, v) == WithScore(b, v)
    ensures a == b
    decreases |a|
  {
    if |a| > 0 {
      assert WithScore(a, a[0].score) == WithScore(b, a[0].score);
    }
    if |b| > 0 {
      assert WithScore(b, b[0].score) == WithScore(a, b[0].score);
    }
    NonEmptyTogether(a, b);
    NonEmptyTogether(b, a);
    if |a| > 0 {
      HeadsAgree(a, b);
      HeadsAgree(b, a);
      var m := a[0].score;
      assert WithScore(a, m) == [a[0]] + WithScore(a[1..], m);
      assert WithScore(b, m) == [b[0]] + WithScore(b[1..], m);
      assert a[0] == WithScore(a, m)[0] == WithScore(b, m)[0] == b[0];
      forall v ensures WithScore(a[1..], v) == WithScore(b[1..], v) {
        WithScoreTail(a, b, v);
      }
      StableDescendingUnique(a[1..], b[1..]);
      assert a == [a[0]] + a[1..] && b == [b[0]] + b[1..];
    }
  }

  /** Any stable descending arrangement of `s` is SortDesc(s): the sort is the
      one Python's stable `sort(reverse=True)` produces. */
  lemma SortDescCharacterized<T>(s: seq<Ranked<T>>, r: seq<Ranked<T>>)
    requires StableDescending(s, r)
    ensures r == SortDesc(s)
  {
    SortDescIsStable(s);
    StableDescendingUnique(r, SortDesc(s));
  }

  // ---------------------------------------------------------------------
  // Ranking positions by a score per position.

  /** Every position paired with its score, in order. */
  function ScoreAll(scores: seq<real>): (r: seq<Ranked<nat>>)
    ensures |r| == |scores|
    ensures forall k :: 0 <= k < |r| ==> r[k] == Ranked(scores[k], k)
  {
    seq(|scores|, k requires 0 <= k < |scores| => Ranked(scores[k], k))
  }

  /** All positions best first, ties in position order: a permutation of the
      positions, each with its own score. */
  function RankAll(scores: seq<real>): (r: seq<Ranked<nat>>)
    ensures |r| == |scores| && NonIncreasing(r)
    ensures forall k :: 0 <= k < |r| ==> r[k].item < |scores| && r[k].score == scores[r[k].item]
    ensures forall j :: 0 <= j < |scores| ==> Ranked(scores[j], j) in r
  {
    var s := ScoreAll(scores);
    var r := SortDesc(s);
    AllMembers(scores, s, r);
    r
  }

  lemma AllMembers(scores: seq<real>, s: seq<Ranked<nat>>, r: seq<Ranked<nat>>)
    requires s == ScoreAll(scores)
    requires multiset(r) == multiset(s)
    ensures forall k :: 0 <= k < |r| ==> r[k].item < |scores| && r[k].score == scores[r[k].item]
    ensures forall j :: 0 <= j < |scores| ==> Ranked(scores[j], j) in r
  {
    SameMembers(s, r);
    forall k | 0 <= k < |r|
      ensures r[k].item < |scores| && r[k].score == scores[r[k].item]
    {
      assert r[k] in s;
      var i :| 0 <= i < |s| && s[i] == r[k];
    }
    forall j | 0 <= j < |scores|
      ensures Ranked(scores[j], j) in r
    {
      assert s[j] in s;
    }
  }

  /** The positions, from `i` on, with a positive score, in order, each
      paired with its score. */
  function PositiveFrom(scores: seq<nat>, i: nat): (r: seq<Ranked<nat>>)
    requires i <= |scores|
    ensures forall k :: 0 <= k < |r| ==>
              i <= r[k].item < |scores| && scores[r[k].item] > 0 && r[k].score == scores[r[k].item] as real
    ensures forall j :: i <= j < |scores| && scores[j] > 0 ==> Ranked(scores[j] as real, j) in r
    decreases |scores| - i
  {
    if i == |scores| then []
    else
      var rest := PositiveFrom(scores, i + 1);
      (if scores[i] > 0 then [Ranked(scores[i] as real, i)] else []) + rest
  }

  predicate ItemsAscend(r: seq<Ranked<nat>>) {
    forall a, b :: 0 <= a < b < |r| ==> r[a].item < r[b].item
  }

  /** The positions come out in increasing order, so ties in a stable sort
      of them stay in position order. */
  lemma {:induction false} PositiveFromAscends(scores: seq<nat>, i: nat)
    requires i <= |scores|
    ensures ItemsAscend(PositiveFrom(scores, i))
    decreases |scores| - i
  {
    if i < |scores| {
      var rest := PositiveFrom(scores, i + 1);
      PositiveFromAscends(scores, i + 1);
      if scores[i] > 0 {
        var r := [Ranked(scores[i] as real, i)] + rest;
        forall a, b | 0 <= a < b < |r|
          ensures r[a].item < r[b].item
        {
          var y := rest[b - 1];
          assert r[b] == y;
          assert i + 1 <= y.item;
          if a > 0 {
            assert r[a] == rest[a - 1];
          }
        }
        assert PositiveFrom(scores, i) == r;
      }
    }
  }

  /** Two arrangements of the same items have the same members. */
  lemma SameMembers<T>(s: seq<T>, r: seq<T>)
    requires multiset(r) == multiset(s)
    ensures forall x :: x in r <==> x in s
  {
    forall x
      ensures x in r <==> x in s
    {
      assert x in r <==> x in multiset(r);
      assert x in s <==> x in multiset(s);
    }
  }

  /** The positions with a positive score, best first, ties in position
      order: each with its own score, and none left out. */
  function RankPositive(scores: seq<nat>): (r: seq<Ranked<nat>>)
    ensures forall k :: 0 <= k < |r| ==>
              r[k].item < |scores| && scores[r[k].item] > 0 && r[k].score == scores[r[k].item] as real
    ensures forall j :: 0 <= j < |scores| && scores[j] > 0 ==> Ranked(scores[j] as real, j) in r
  {
    var s := PositiveFrom(scores, 0);
    var r := SortDesc(s);
    PositiveMembers(scores, s, r);
    r
  }

  lemma PositiveMembers(scores: seq<nat>, s: seq<Ranked<nat>>, r: seq<Ranked<nat>>)
    requires s == PositiveFrom(scores, 0)
    requires multiset(r) == multiset(s)
    ensures forall k :: 0 <= k < |r| ==>
              r[k].item < |scores| && scores[r[k].item] > 0 && r[k].score == scores[r[k].item] as real
    ensures forall j :: 0 <= j < |scores| && scores[j] > 0 ==> Ranked(scores[j] as real, j) in r
  {
    SameMembers(s, r);
    forall k | 0 <= k < |r|
      ensures r[k].item < |scores| && scores[r[k].item] > 0 && r[k].score == scores[r[k].item] as real
    {
      assert r[k] in s;
      var i :| 0 <= i < |s| && s[i] == r[k];
    }
  }

  /** The ranking of the positive positions is their stable descending sort. */
  lemma RankPositiveIsStable(scores: seq<nat>)
    ensures StableDescending(PositiveFrom(scores, 0), RankPositive(scores))
  {
    SortDescIsStable(PositiveFrom(scores, 0));
  }
}
