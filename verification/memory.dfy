/** The per-student memory the tutor keeps between sessions: how often each
    topic was asked about, short lists of misconceptions and strengths, the
    last few questions with a short form of the answer, and the summary of
    it that goes into the teacher prompt. The record store is a map and the
    clock reading is a parameter. */
module Memory {
  import opened Results
  import opened Text
  import opened Ranking
  import opened Decimal

  datatype TopicStat = TopicStat(asked: nat, last: Option<string>, notes: string)

  /** A topic with its counters; a record keeps its topics in the order they
      were first asked about, as the JSON object does. */
  datatype TopicEntry = TopicEntry(topic: string, stat: TopicStat)

  datatype QA = QA(ts: string, q: string, aShort: string, topic: string)

  datatype StudentRecord = StudentRecord(
    name: string, createdAt: string, lastSeenAt: string,
    topics: seq<TopicEntry>, misconceptions: seq<string>, strengths: seq<string>,
    lastQuestions: seq<QA>)

  type Students = map<string, StudentRecord>

  /** The record of a student seen for the first time. */
  function NewRecord(name: string, now: string): StudentRecord {
    StudentRecord(name, now, now, [], [], [], [])
  }

  /** `get_student_memory`: a missing student gets an empty record; an
      existing record is returned and nothing changes. */
  function GetStudentMemory(students: Students, name: string, now: string): (r: (Students, StudentRecord))
    ensures name in r.0 && r.0[name] == r.1
    ensures name in students ==> r.0 == students && r.1 == students[name]
    ensures name !in students ==>
              && r.1.name == name && r.1.createdAt == now
              && r.1.topics == [] && r.1.misconceptions == [] && r.1.strengths == []
              && r.1.lastQuestions == []
    ensures forall n :: n != name ==> (n in r.0 <==> n in students) && (n in students ==> r.0[n] == students[n])
  {
    if name in students then (students, students[name])
    else
      var rec := NewRecord(name, now);
      (students[name := rec], rec)
  }

  // ---------------------------------------------------------------------
  // Short lists.

  /** `_cap_list`: `lst[-max_items:]`. */
  function CapList<T>(l: seq<T>, n: int): (r: seq<T>)
    ensures |r| <= |l| && r == l[|l| - |r|..]
    ensures 0 < n ==> |r| == if n < |l| then n else |l|
    ensures n == 0 ==> r == l
  {
    Drop(l, -n)
  }

  predicate NoDuplicates<T(==)>(l: seq<T>) {
    forall a, b :: 0 <= a < b < |l| ==> l[a] != l[b]
  }

  lemma SuffixNoDuplicates<T>(l: seq<T>, i: nat)
    requires i <= |l| && NoDuplicates(l)
    ensures NoDuplicates(l[i..])
  {
    var s := l[i..];
    forall a, b | 0 <= a < b < |s|
      ensures s[a] != s[b]
    {
      assert s[a] == l[a + i] && s[b] == l[b + i];
    }
  }

  /** Adds `item` unless it is already listed, then keeps the newest 10. */
  function Remember(l: seq<string>, item: string): (r: seq<string>)
    ensures |r| <= 10
    ensures forall x :: x in r ==> x in l || x == item
  {
    var m := if item in l then l else l + [item];
    assert forall x :: x in m ==> x in l || x == item;
    CapList(m, 10)
  }

  /** The result is the newest 10 of the list with the item appended
      unless already listed: a new item goes last; an item is kept while
      the list has room for it, and so is everything listed before; a
      short list that already has the item is unchanged; a list without
      repeats stays without repeats. */
  lemma RememberKeeps(l: seq<string>, item: string)
    ensures var r := Remember(l, item);
            var m := if item in l then l else l + [item];
            && |r| == (if |m| < 10 then |m| else 10) && r == m[|m| - |r|..]
            && (item !in l ==> |r| > 0 && r[|r| - 1] == item)
            && (|l| <= 10 ==> item in r)
            && (|l| < 10 ==> forall x :: x in l ==> x in r)
            && (item in l && |l| <= 10 ==> r == l)
            && (NoDuplicates(l) ==> NoDuplicates(r))
  {
    var m := if item in l then l else l + [item];
    var r := CapList(m, 10);
    assert forall k :: 0 <= k < |r| ==> r[k] == m[|m| - |r| + k];
    if NoDuplicates(l) {
      forall a, b | 0 <= a < b < |m|
        ensures m[a] != m[b]
      {
        if b == |l| {
          assert m[a] == l[a];
        }
      }
      SuffixNoDuplicates(m, |m| - |r|);
    }
  }

  // ---------------------------------------------------------------------
  // Topic counters.

  /** The position of `topic` among the entries, if it is there. */
  function FindTopic(entries: seq<TopicEntry>, topic: string): (r: Option<nat>)
    ensures r.None? <==> forall k :: 0 <= k < |entries| ==> entries[k].topic != topic
    ensures r.Some? ==>
              && r.value < |entries| && entries[r.value].topic == topic
              && forall k :: 0 <= k < r.value ==> entries[k].topic != topic
  {
    if |entries| == 0 then None
    else if entries[0].topic == topic then Some(0)
    else
      match FindTopic(entries[1..], topic)
      case None =>
        assert forall k :: 1 <= k < |entries| ==> entries[k] == entries[1..][k - 1];
        None
      case Some(k) =>
        assert forall j :: 1 <= j <= k ==> entries[j] == entries[1..][j - 1];
        Some(k + 1)
  }

  /** How many times `topic` was asked about; 0 if never. */
  function Asked(entries: seq<TopicEntry>, topic: string): nat {
    match FindTopic(entries, topic)
    case None => 0
    case Some(k) => entries[k].stat.asked
  }

  predicate DistinctTopics(entries: seq<TopicEntry>) {
    forall a, b :: 0 <= a < b < |entries| ==> entries[a].topic != entries[b].topic
  }

  /** `setdefault(topic, {"asked": 0, "last": None, "notes": ""})`, then one
      more ask, last asked `now`. */
  function BumpTopic(entries: seq<TopicEntry>, topic: string, now: string): seq<TopicEntry> {
    match FindTopic(entries, topic)
    case None =>
      entries + [TopicEntry(topic, TopicStat(1, Some(now), ""))]
    case Some(k) =>
      var s := entries[k].stat;
      entries[k := TopicEntry(topic, TopicStat(s.asked + 1, Some(now), s.notes))]
  }

  /** Entries with the same topics at the same positions find every topic
      at the same place. */
  lemma FindSameTopics(a: seq<TopicEntry>, b: seq<TopicEntry>, t: string)
    requires |a| == |b| && forall k :: 0 <= k < |a| ==> a[k].topic == b[k].topic
    ensures FindTopic(a, t) == FindTopic(b, t)
  {
    var fa, fb := FindTopic(a, t), FindTopic(b, t);
    if fa.Some? {
      assert b[fa.value].topic == t;
    }
    if fb.Some? {
      assert a[fb.value].topic == t;
    }
  }

  /** An entry appended for a topic not yet present is found at the end, and
      every other topic where it was. */
  lemma FindAppended(entries: seq<TopicEntry>, e: TopicEntry, t: string)
    requires forall k :: 0 <= k < |entries| ==> entries[k].topic != e.topic
    ensures FindTopic(entries + [e], t) == if t == e.topic then Some(|entries|) else FindTopic(entries, t)
  {
    var r := entries + [e];
    var fr, fe := FindTopic(r, t), FindTopic(entries, t);
    if fe.Some? {
      assert r[fe.value] == entries[fe.value];
    }
    if fr.Some? && fr.value < |entries| {
      assert r[fr.value] == entries[fr.value];
    }
    if t == e.topic {
      assert r[|entries|] == e;
    }
  }

  /** Asking about a topic for the first time: it is counted once, goes
      last, and no other topic changes. */
  lemma BumpNewTopic(entries: seq<TopicEntry>, topic: string, now: string, t: string)
    requires FindTopic(entries, topic).None?
    ensures var r := BumpTopic(entries, topic, now);
            && r == entries + [TopicEntry(topic, TopicStat(1, Some(now), ""))]
            && Asked(r, t) == if t == topic then 1 else Asked(entries, t)
  {
    FindAppended(entries, TopicEntry(topic, TopicStat(1, Some(now), "")), t);
  }

  /** Asking about a known topic: its count goes up by one, it stays where
      it was, and no other topic changes. */
  lemma BumpKnownTopic(entries: seq<TopicEntry>, topic: string, now: string, t: string)
    requires FindTopic(entries, topic).Some?
    ensures var r := BumpTopic(entries, topic, now);
            && |r| == |entries|
            && (forall k :: 0 <= k < |entries| ==> r[k].topic == entries[k].topic)
            && Asked(r, t) == if t == topic then Asked(entries, t) + 1 else Asked(entries, t)
  {
    var i := FindTopic(entries, topic).value;
    var r := BumpTopic(entries, topic, now);
    FindSameTopics(entries, r, t);
  }

  /** One ask adds exactly one to the topic's counter, which starts at 0,
      leaves every other topic's counter alone, and records when it was
      last asked; topics keep their order, a new one going last, and stay
      distinct. */
  lemma BumpTopicContract(entries: seq<TopicEntry>, topic: string, now: string)
    ensures var r := BumpTopic(entries, topic, now);
            && Asked(r, topic) == Asked(entries, topic) + 1
            && (forall t :: t != topic ==> Asked(r, t) == Asked(entries, t))
            && FindTopic(r, topic).Some? && r[FindTopic(r, topic).value].stat.last == Some(now)
            && |r| == |entries| + (if FindTopic(entries, topic).None? then 1 else 0)
            && (forall k :: 0 <= k < |entries| ==> r[k].topic == entries[k].topic)
            && (DistinctTopics(entries) ==> DistinctTopics(r))
  {
    var r := BumpTopic(entries, topic, now);
    if FindTopic(entries, topic).None? {
      BumpNewTopic(entries, topic, now, topic);
      forall t | t != topic
        ensures Asked(r, t) == Asked(entries, t)
      {
        BumpNewTopic(entries, topic, now, t);
      }
      FindAppended(entries, TopicEntry(topic, TopicStat(1, Some(now), "")), topic);
    } else {
      BumpKnownTopic(entries, topic, now, topic);
      forall t | t != topic
        ensures Asked(r, t) == Asked(entries, t)
      {
        BumpKnownTopic(entries, topic, now, t);
      }
      FindSameTopics(entries, r, topic);
    }
  }

  // ---------------------------------------------------------------------
  // The update after a question.

  /** `answer.strip().replace("\n", " ")`, cut to 177 characters and "..."
      when longer than 180. */
  function ShortAnswer(answer: string): (r: string)
    ensures |r| <= 180
    ensures var t := Subst(Strip(answer), '\n', ' ');
            && (|t| <= 180 ==> r == t)
            && (|t| > 180 ==> r == t[..177] + "...")
    ensures '\n' !in r
  {
    ReplaceCharByChar(Strip(answer), '\n', ' ');
    var t := Replace(Strip(answer), "\n", " ");
    var r := Ellipsize(t, 180);
    assert forall c :: c in t ==> c != '\n';
    r
  }

  /** The question as it is logged: its timestamp, the stripped question,
      the short answer and the topic, "" when none was given. */
  function LogEntry(question: string, answer: string, topic: Option<string>, now: string): QA {
    QA(now, Strip(question), ShortAnswer(answer), if topic.Some? then topic.value else "")
  }

  /** What an update notes besides the question log: when the student was
      last seen, the topic asked about, and a misconception or strength
      the tutor spotted. */
  function Noted(
    prev: StudentRecord, topic: Option<string>, misconception: Option<string>, strength: Option<string>,
    now: string)
    : (r: StudentRecord)
    ensures r.lastQuestions == prev.lastQuestions
  {
    var rec := prev.(lastSeenAt := now);
    var rec := if Truthy(topic) then rec.(topics := BumpTopic(rec.topics, topic.value, now)) else rec;
    var rec := if Truthy(misconception) then
                 rec.(misconceptions := Remember(rec.misconceptions, misconception.value))
               else rec;
    if Truthy(strength) then rec.(strengths := Remember(rec.strengths, strength.value)) else rec
  }

  /** The changes `update_student_progress` makes to one record. */
  function Updated(
    prev: StudentRecord, question: string, answer: string,
    topic: Option<string>, misconception: Option<string>, strength: Option<string>, now: string)
    : StudentRecord
  {
    var rec := Noted(prev, topic, misconception, strength, now);
    rec.(lastQuestions := CapList(rec.lastQuestions + [LogEntry(question, answer, topic, now)], 8))
  }

  /** The record a question is recorded into: the stored one, or a new one. */
  function Before(students: Students, name: string, now: string): StudentRecord {
    if name in students then students[name] else NewRecord(name, now)
  }

  /** `update_student_progress`, on the store of records: the student's
      record, created if missing, is updated and no other record changes.
      `now` is the clock reading used for every timestamp of the update. */
  function UpdateStudentProgress(
    students: Students, name: string, question: string, answer: string,
    topic: Option<string>, misconception: Option<string>, strength: Option<string>, now: string)
    : (r: Students)
    ensures name in r
    ensures r[name] == Updated(Before(students, name, now), question, answer, topic, misconception, strength, now)
    ensures forall n :: n != name ==> (n in r <==> n in students) && (n in students ==> r[n] == students[n])
  {
    var rec := Updated(Before(students, name, now), question, answer, topic, misconception, strength, now);
    students[name := rec]
  }

  /** An update keeps who the record is for and when it was made, and marks
      the student as seen now. */
  lemma UpdatedIdentity(
    prev: StudentRecord, question: string, answer: string,
    topic: Option<string>, misconception: Option<string>, strength: Option<string>, now: string)
    ensures var r := Updated(prev, question, answer, topic, misconception, strength, now);
            r.name == prev.name && r.createdAt == prev.createdAt && r.lastSeenAt == now
  { }

  /** A given topic counts one more ask; no other topic's count changes. */
  lemma UpdatedTopics(
    prev: StudentRecord, question: string, answer: string,
    topic: Option<string>, misconception: Option<string>, strength: Option<string>, now: string)
    ensures var r := Updated(prev, question, answer, topic, misconception, strength, now);
            && (Truthy(topic) ==> Asked(r.topics, topic.value) == Asked(prev.topics, topic.value) + 1)
            && (forall t :: (!Truthy(topic) || t != topic.value) ==> Asked(r.topics, t) == Asked(prev.topics, t))
  {
    if Truthy(topic) {
      BumpTopicContract(prev.topics, topic.value, now);
    }
  }

  /** A given misconception or strength is remembered in its list; a missing
      or empty one leaves the list as it was. */
  lemma UpdatedLists(
    prev: StudentRecord, question: string, answer: string,
    topic: Option<string>, misconception: Option<string>, strength: Option<string>, now: string)
    ensures var r := Updated(prev, question, answer, topic, misconception, strength, now);
            && r.misconceptions == (if Truthy(misconception) then Remember(prev.misconceptions, misconception.value)
                                    else prev.misconceptions)
            && r.strengths == (if Truthy(strength) then Remember(prev.strengths, strength.value)
                               else prev.strengths)
  { }

  /** `r` is the log `l` after appending `e` and keeping the newest `n`:
      `e` goes last, after the newest earlier entries, the log is as long
      as it can be up to `n`, and nothing is dropped while `l` is shorter
      than `n`. */
  ghost predicate Logs<T>(l: seq<T>, e: T, n: nat, r: seq<T>) {
    && 0 < |r| <= n && |r| - 1 <= |l| && r[|r| - 1] == e
    && |r| == (if |l| + 1 < n then |l| + 1 else n)
    && r[..|r| - 1] == l[|l| - (|r| - 1)..]
    && (|l| < n ==> r == l + [e])
  }

  lemma CapAppend<T>(l: seq<T>, e: T, n: nat)
    requires 1 <= n
    ensures Logs(l, e, n, CapList(l + [e], n))
  {
    var m := l + [e];
    var r := CapList(m, n);
    assert r[..|r| - 1] == m[|m| - |r|..|m| - 1];
  }

  /** The question goes last in a log of at most 8, after the newest earlier
      questions, with its answer shortened; nothing is dropped before the
      log is full. */
  lemma UpdatedQuestions(
    prev: StudentRecord, question: string, answer: string,
    topic: Option<string>, misconception: Option<string>, strength: Option<string>, now: string)
    ensures Logs(prev.lastQuestions, LogEntry(question, answer, topic, now), 8,
                 Updated(prev, question, answer, topic, misconception, strength, now).lastQuestions)
  {
    CapAppend(prev.lastQuestions, LogEntry(question, answer, topic, now), 8);
  }

  // ---------------------------------------------------------------------
  // The summary for the teacher prompt.

  /** The `asked` count of every topic, by position. */
  function AskedScores(entries: seq<TopicEntry>): (r: seq<real>)
    ensures |r| == |entries|
    ensures forall k :: 0 <= k < |r| ==> r[k] == entries[k].stat.asked as real
  {
    seq(|entries|, k requires 0 <= k < |entries| => entries[k].stat.asked as real)
  }

  /** `sorted(topics.items(), key=asked, reverse=True)[:3]`, by position. */
  function TopRanking(entries: seq<TopicEntry>): (r: seq<Ranked<nat>>)
    ensures forall k :: 0 <= k < |r| ==> r[k].item < |entries|
  {
    var ranking := RankAll(AskedScores(entries));
    TakePrefix(ranking, 3);
    Take(ranking, 3)
  }

  /** The three most asked topics. */
  function TopTopics(entries: seq<TopicEntry>): seq<TopicEntry> {
    var top := TopRanking(entries);
    seq(|top|, k requires 0 <= k < |top| => entries[top[k].item])
  }

  /** There are as many top topics as topics, up to three. */
  lemma TopTopicsLength(entries: seq<TopicEntry>)
    ensures |TopTopics(entries)| == if |entries| < 3 then |entries| else 3
  {
    TakePrefix(RankAll(AskedScores(entries)), 3);
  }

  /** The top topics in rank order: topic `k` is the entry ranked `k`. */
  lemma TopTopicsRanked(entries: seq<TopicEntry>, k: nat)
    requires k < |TopTopics(entries)|
    ensures var ranking := RankAll(AskedScores(entries));
            k < |ranking| && TopTopics(entries)[k] == entries[ranking[k].item]
            && ranking[k].score == entries[ranking[k].item].stat.asked as real
  {
    TakePrefix(RankAll(AskedScores(entries)), 3);
  }

  /** The top topics are as many as there are, up to three, most asked
      first, with ties in first-asked order, and no topic left out is asked
      more than the last one shown. */
  lemma TopTopicsContract(entries: seq<TopicEntry>)
    ensures var top := TopTopics(entries);
            var n := |entries|;
            && |top| == (if n < 3 then n else 3)
            && StableDescending(ScoreAll(AskedScores(entries)), RankAll(AskedScores(entries)))
            && (forall k :: 0 <= k < |top| ==> top[k] in entries)
            && (forall a, b :: 0 <= a < b < |top| ==> top[a].stat.asked >= top[b].stat.asked)
            && (forall j :: 0 <= j < n && entries[j] !in top ==>
                  top[|top| - 1].stat.asked >= entries[j].stat.asked)
  {
    var scores := AskedScores(entries);
    var ranking := RankAll(scores);
    SortDescIsStable(ScoreAll(scores));
    TopTopicsLength(entries);
    var top := TopTopics(entries);
    forall k | 0 <= k < |top|
      ensures top[k] in entries
    {
      TopTopicsRanked(entries, k);
    }
    forall a, b | 0 <= a < b < |top|
      ensures top[a].stat.asked >= top[b].stat.asked
    {
      TopTopicsRanked(entries, a);
      TopTopicsRanked(entries, b);
    }
    forall j | 0 <= j < |entries| && entries[j] !in top
      ensures top[|top| - 1].stat.asked >= entries[j].stat.asked
    {
      LeftOutRanksLower(entries, j);
    }
  }

  /** A topic that is not among the top ones is asked no more than the last
      top topic. */
  lemma LeftOutRanksLower(entries: seq<TopicEntry>, j: nat)
    requires j < |entries| && entries[j] !in TopTopics(entries)
    ensures 0 < |TopTopics(entries)|
    ensures var top := TopTopics(entries);
            top[|top| - 1].stat.asked >= entries[j].stat.asked
  {
    var scores := AskedScores(entries);
    var ranking := RankAll(scores);
    var top := TopTopics(entries);
    TopTopicsLength(entries);
    assert Ranked(scores[j], j) in ranking;
    var m :| 0 <= m < |ranking| && ranking[m] == Ranked(scores[j], j);
    if m < |top| {
      TopTopicsRanked(entries, m);
      assert false;
    }
    TopTopicsRanked(entries, |top| - 1);
  }

  /** `f"{t}({meta.get('asked', 0)})"` */
  function TopicLabel(e: TopicEntry): (r: string)
    ensures '(' in r
  {
    var r := e.topic + "(" + Digits(e.stat.asked) + ")";
    assert r[|e.topic|] == '(';
    r
  }

  lemma JoinStartsWith(sep: string, parts: seq<string>)
    requires |parts| > 0
    ensures |parts[0]| <= |Join(sep, parts)| && Join(sep, parts)[..|parts[0]|] == parts[0]
  {
    if |parts| > 1 {
      var j := Join(sep, parts);
      assert j == parts[0] + (sep + Join(sep, parts[1..]));
    }
  }

  /** The labels of the top topics, most asked first. */
  function TopLabels(entries: seq<TopicEntry>): (r: seq<string>)
    ensures |r| == |TopTopics(entries)|
    ensures forall k :: 0 <= k < |r| ==> r[k] == TopicLabel(TopTopics(entries)[k])
  {
    var top := TopTopics(entries);
    seq(|top|, k requires 0 <= k < |top| => TopicLabel(top[k]))
  }

  /** The topic line: the labels of the top topics, or "None yet". */
  function TopicsText(entries: seq<TopicEntry>): string {
    var joined := Join(", ", TopLabels(entries));
    if joined == "" then "None yet" else joined
  }

  /** The fallback shows exactly when no topic was ever asked about. */
  lemma TopicsTextFallback(entries: seq<TopicEntry>)
    ensures TopicsText(entries) == "None yet" <==> entries == []
  {
    TopTopicsLength(entries);
    var labels := TopLabels(entries);
    if entries != [] {
      JoinStartsWith(", ", labels);
      var j := Join(", ", labels);
      var l := labels[0];
      var i :| 0 <= i < |l| && l[i] == '(';
      assert j[i] == '(';
      assert '(' in j;
      assert '(' !in "None yet";
    }
  }

  /** A list line: the items joined by ", ", or "None recorded". */
  function ListText(items: seq<string>): string {
    if |items| > 0 then Join(", ", items) else "None recorded"
  }

  /** The last question line: the last logged question, or "None yet". */
  function LastQuestionText(log: seq<QA>): string {
    if |log| > 0 then log[|log| - 1].q else "None yet"
  }

  /** `build_memory_summary` */
  function BuildMemorySummary(rec: StudentRecord): string {
    "Recent topic focus: " + TopicsText(rec.topics) + "\n"
    + "Known misconceptions: " + ListText(rec.misconceptions) + "\n"
    + "Strengths: " + ListText(rec.strengths) + "\n"
    + "Last question asked: " + LastQuestionText(rec.lastQuestions)
  }

  /** A new student's summary says there is nothing yet. */
  lemma NewRecordSummary(name: string, now: string)
    ensures BuildMemorySummary(NewRecord(name, now)) ==
              "Recent topic focus: " + "None yet" + "\n"
              + "Known misconceptions: " + "None recorded" + "\n"
              + "Strengths: " + "None recorded" + "\n"
              + "Last question asked: " + "None yet"
  {
    TopicsTextFallback([]);
  }

  ghost predicate EndsWith(s: string, tail: string) {
    |tail| <= |s| && s[|s| - |tail|..] == tail
  }

  /** The summary's last line names the last question logged. */
  lemma SummaryEndsWithLastQuestion(rec: StudentRecord, q: string)
    requires |rec.lastQuestions| > 0 && rec.lastQuestions[|rec.lastQuestions| - 1].q == q
    ensures EndsWith(BuildMemorySummary(rec), "Last question asked: " + q)
  {
    var s := BuildMemorySummary(rec);
    var tail := "Last question asked: " + q;
    var head := "Recent topic focus: " + TopicsText(rec.topics) + "\n"
      + "Known misconceptions: " + ListText(rec.misconceptions) + "\n"
      + "Strengths: " + ListText(rec.strengths) + "\n";
    assert s == head + tail;
  }

  /** After an update, the summary ends with the stripped question just asked. */
  lemma SummaryShowsLastQuestion(
    students: Students, name: string, question: string, answer: string,
    topic: Option<string>, misconception: Option<string>, strength: Option<string>, now: string)
    ensures var r := UpdateStudentProgress(students, name, question, answer, topic, misconception, strength, now);
            EndsWith(BuildMemorySummary(r[name]), "Last question asked: " + Strip(question))
  {
    var prev := Before(students, name, now);
    var rec := Updated(prev, question, answer, topic, misconception, strength, now);
    UpdatedQuestions(prev, question, answer, topic, misconception, strength, now);
    SummaryEndsWithLastQuestion(rec, Strip(question));
  }
}
