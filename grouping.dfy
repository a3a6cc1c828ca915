/**
 * `slv_get_sample_lessons`: one pass over the published lessons that keeps
 * the samples with a course, groups them by course id in an ordered
 * associative array (a course's entry is created at its first lesson and
 * later lessons are appended to it), followed by a sort of the entries by
 * course title with `strcasecmp`, keys kept.
 *
 * The ordered array is a sequence of (course id, group) pairs. `Grouped`
 * is the reference definition of what the loop builds: the distinct kept
 * course ids in first-encounter order, each with the in-order list of its
 * kept lessons.
 */
module Grouping {
  import opened Php
  import opened Lessons

  /** One lesson card: id, title, permalink, excerpt and thumbnail URL. */
  datatype LessonSummary = LessonSummary(
    id: int, title: string, url: string, excerpt: string, thumbnail: Option<string>)

  /** The value stored under a course id: `course_title`, `course_url`, `lessons`. */
  datatype CourseGroup = CourseGroup(courseTitle: string, courseUrl: string, lessons: seq<LessonSummary>)

  /** One entry of the ordered associative array: course id => group. */
  type Entry = (int, CourseGroup)

  function Summary(l: LessonRecord): LessonSummary {
    LessonSummary(l.id, l.title, l.url, l.excerpt, l.thumbnail)
  }

  // ---------------------------------------------------------------------
  // Reference definition of the grouping

  /** The course ids of the kept lessons, in input order, repeats included. */
  function KeptCourseIds(host: Host, ls: seq<LessonRecord>): seq<int> {
    if ls == [] then []
    else
      KeptCourseIds(host, ls[..|ls| - 1]) +
      match KeptCourse(host, ls[|ls| - 1])
      case Some(k) => [k]
      case None => []
  }

  /** The cards of the kept lessons of course `k`, in input order. */
  function LessonsOf(host: Host, ls: seq<LessonRecord>, k: int): seq<LessonSummary> {
    if ls == [] then []
    else
      LessonsOf(host, ls[..|ls| - 1], k) +
      if KeptCourse(host, ls[|ls| - 1]) == Some(k) then [Summary(ls[|ls| - 1])] else []
  }

  predicate Distinct(ks: seq<int>) {
    forall i, j | 0 <= i < j < |ks| :: ks[i] != ks[j]
  }

  /** The distinct elements of `ks` in order of first occurrence. */
  function Dedup(ks: seq<int>): (r: seq<int>)
    ensures forall x :: x in r <==> x in ks
    ensures Distinct(r)
  {
    if ks == [] then []
    else
      var d := Dedup(ks[..|ks| - 1]);
      assert forall x :: x in ks <==> x in ks[..|ks| - 1] || x == ks[|ks| - 1];
      if ks[|ks| - 1] in d then d else d + [ks[|ks| - 1]]
  }

  /** The position of the first occurrence of `k` in `ks`. */
  function FirstIndex(ks: seq<int>, k: int): (i: nat)
    requires k in ks
    ensures i < |ks| && ks[i] == k
    ensures forall j | 0 <= j < i :: ks[j] != k
  {
    if ks[0] == k then 0
    else
      var i := FirstIndex(ks[1..], k);
      assert forall j | 1 <= j <= i :: ks[j] == ks[1..][j - 1];
      1 + i
  }

  function GroupOf(host: Host, ls: seq<LessonRecord>, k: int): CourseGroup {
    CourseGroup(host.courseTitle(k), host.courseUrl(k), LessonsOf(host, ls, k))
  }

  predicate DistinctKeys(es: seq<Entry>) {
    forall i, j | 0 <= i < j < |es| :: es[i].0 != es[j].0
  }

  /** What the loop of `slv_get_sample_lessons` leaves in `$sample_lessons`. */
  function Grouped(host: Host, ls: seq<LessonRecord>): (r: seq<Entry>)
    ensures DistinctKeys(r)
  {
    var ks := Dedup(KeptCourseIds(host, ls));
    seq(|ks|, i requires 0 <= i < |ks| => (ks[i], GroupOf(host, ls, ks[i])))
  }

  /** Total number of lesson cards across all entries. */
  function TotalLessons(es: seq<Entry>): nat {
    if es == [] then 0 else TotalLessons(es[..|es| - 1]) + |es[|es| - 1].1.lessons|
  }

  /** `isset( $sample_lessons[ $k ] )` as a search: the position of key `k`, or `|es|`. */
  function KeyIndex(es: seq<Entry>, k: int): (j: nat)
    ensures j <= |es|
    ensures j < |es| ==> es[j].0 == k
    ensures forall i | 0 <= i < j :: es[i].0 != k
  {
    if es == [] then 0
    else if es[0].0 == k then 0
    else 1 + KeyIndex(es[1..], k)
  }

  // ---------------------------------------------------------------------
  // One more lesson

  lemma KeptCourseIdsSnoc(host: Host, ls: seq<LessonRecord>, l: LessonRecord)
    ensures KeptCourseIds(host, ls + [l]) ==
      KeptCourseIds(host, ls) + match KeptCourse(host, l) case Some(k) => [k] case None => []
  {
    assert (ls + [l])[..|ls|] == ls;
  }

  lemma LessonsOfSnoc(host: Host, ls: seq<LessonRecord>, l: LessonRecord, k: int)
    ensures LessonsOf(host, ls + [l], k) ==
      LessonsOf(host, ls, k) + if KeptCourse(host, l) == Some(k) then [Summary(l)] else []
  {
    assert (ls + [l])[..|ls|] == ls;
  }

  lemma DedupSnoc(ks: seq<int>, k: int)
    ensures Dedup(ks + [k]) == if k in Dedup(ks) then Dedup(ks) else Dedup(ks) + [k]
  {
    assert (ks + [k])[..|ks|] == ks;
  }

  lemma FirstIndexSnoc(ks: seq<int>, x: int, k: int)
    requires k in ks
    ensures FirstIndex(ks + [x], k) == FirstIndex(ks, k)
  {
    var i, i' := FirstIndex(ks, k), FirstIndex(ks + [x], k);
    assert (ks + [x])[i] == k;
    assert i' <= i;
    assert ks[i'] == (ks + [x])[i'];
  }

  /**
   * First-occurrence order: of two keys of `Dedup(ks)`, the earlier one
   * occurs first in `ks`.
   */
  lemma {:induction false} DedupFirstOccurrenceOrder(ks: seq<int>)
    ensures var r := Dedup(ks);
      forall i, j | 0 <= i < j < |r| :: FirstIndex(ks, r[i]) < FirstIndex(ks, r[j])
  {
    if ks != [] {
      var init, last := ks[..|ks| - 1], ks[|ks| - 1];
      assert ks == init + [last];
      DedupFirstOccurrenceOrder(init);
      DedupSnoc(init, last);
      var d, r := Dedup(init), Dedup(ks);
      forall i, j | 0 <= i < j < |r| ensures FirstIndex(ks, r[i]) < FirstIndex(ks, r[j]) {
        assert r[i] == d[i] && r[i] in init;
        FirstIndexSnoc(init, last, r[i]);
        if j < |d| {
          assert r[j] == d[j] && r[j] in init;
          FirstIndexSnoc(init, last, r[j]);
        } else {
          assert r[j] == last && last !in init;
          FirstIndexLast(init, last);
        }
      }
    }
  }

  lemma FirstIndexLast(ks: seq<int>, x: int)
    requires x !in ks
    ensures FirstIndex(ks + [x], x) == |ks|
  {
    var f := FirstIndex(ks + [x], x);
    if f < |ks| {
      assert false;
    }
  }

  /** A course with no kept lesson has no cards. */
  lemma {:induction false} LessonsOfAbsent(host: Host, ls: seq<LessonRecord>, k: int)
    requires k !in KeptCourseIds(host, ls)
    ensures LessonsOf(host, ls, k) == []
  {
    if ls != [] {
      var init, last := ls[..|ls| - 1], ls[|ls| - 1];
      assert ls == init + [last];
      KeptCourseIdsSnoc(host, init, last);
      assert k !in KeptCourseIds(host, init);
      assert KeptCourse(host, last) != Some(k);
      LessonsOfAbsent(host, init, k);
      LessonsOfSnoc(host, init, last, k);
    }
  }

  lemma GroupedAt(host: Host, ls: seq<LessonRecord>)
    ensures var d := Dedup(KeptCourseIds(host, ls));
      |Grouped(host, ls)| == |d| &&
      forall i | 0 <= i < |d| :: Grouped(host, ls)[i] == (d[i], GroupOf(host, ls, d[i]))
  {
  }

  /** A lesson that is not kept changes nothing. */
  lemma GroupedStepSkip(host: Host, ls: seq<LessonRecord>, l: LessonRecord)
    requires KeptCourse(host, l).None?
    ensures Grouped(host, ls + [l]) == Grouped(host, ls)
  {
    var g, g' := Grouped(host, ls), Grouped(host, ls + [l]);
    KeptCourseIdsSnoc(host, ls, l);
    var d := Dedup(KeptCourseIds(host, ls));
    assert KeptCourseIds(host, ls + [l]) == KeptCourseIds(host, ls);
    GroupedAt(host, ls);
    GroupedAt(host, ls + [l]);
    forall i | 0 <= i < |d| ensures g'[i] == g[i] {
      LessonsOfSnoc(host, ls, l, d[i]);
      assert GroupOf(host, ls + [l], d[i]) == GroupOf(host, ls, d[i]);
    }
  }

  /**
   * A kept lesson of a course that already has an entry is appended to that
   * entry's cards; its title and URL and every other entry stay as they were.
   */
  lemma GroupedStepExisting(host: Host, ls: seq<LessonRecord>, l: LessonRecord, k: int)
    requires KeptCourse(host, l) == Some(k)
    requires KeyIndex(Grouped(host, ls), k) < |Grouped(host, ls)|
    ensures var g := Grouped(host, ls); var j := KeyIndex(g, k);
      Grouped(host, ls + [l]) == g[j := (k, g[j].1.(lessons := g[j].1.lessons + [Summary(l)]))]
  {
    var g, g' := Grouped(host, ls), Grouped(host, ls + [l]);
    var ks := KeptCourseIds(host, ls);
    var d := Dedup(ks);
    KeptCourseIdsSnoc(host, ls, l);
    assert KeptCourseIds(host, ls + [l]) == ks + [k];
    GroupedAt(host, ls);
    GroupedAt(host, ls + [l]);
    var j := KeyIndex(g, k);
    assert d[j] == k;
    DedupSnoc(ks, k);
    assert Dedup(ks + [k]) == d;
    var h := g[j := (k, g[j].1.(lessons := g[j].1.lessons + [Summary(l)]))];
    forall i | 0 <= i < |d| ensures g'[i] == h[i] {
      LessonsOfSnoc(host, ls, l, d[i]);
      if i != j {
        assert d[i] != k;
        assert GroupOf(host, ls + [l], d[i]) == GroupOf(host, ls, d[i]);
      } else {
        assert GroupOf(host, ls + [l], k) == g[j].1.(lessons := g[j].1.lessons + [Summary(l)]);
      }
    }
  }

  /**
   * A kept lesson of a course with no entry yet adds one entry at the end,
   * holding the course's title and URL and that one card.
   */
  lemma GroupedStepNew(host: Host, ls: seq<LessonRecord>, l: LessonRecord, k: int)
    requires KeptCourse(host, l) == Some(k)
    requires KeyIndex(Grouped(host, ls), k) == |Grouped(host, ls)|
    ensures Grouped(host, ls + [l]) ==
      Grouped(host, ls) + [(k, CourseGroup(host.courseTitle(k), host.courseUrl(k), [Summary(l)]))]
  {
    var g, g' := Grouped(host, ls), Grouped(host, ls + [l]);
    var ks := KeptCourseIds(host, ls);
    var d := Dedup(ks);
    KeptCourseIdsSnoc(host, ls, l);
    assert KeptCourseIds(host, ls + [l]) == ks + [k];
    GroupedAt(host, ls);
    GroupedAt(host, ls + [l]);
    assert forall i | 0 <= i < |d| :: d[i] == g[i].0 != k;
    assert k !in d;
    DedupSnoc(ks, k);
    var d' := d + [k];
    assert Dedup(ks + [k]) == d';
    LessonsOfAbsent(host, ls, k);
    var h := g + [(k, CourseGroup(host.courseTitle(k), host.courseUrl(k), [Summary(l)]))];
    assert |g'| == |d'| == |h|;
    forall i | 0 <= i < |h| ensures g'[i] == h[i] {
      if i < |d| {
        LessonsOfSnoc(host, ls, l, d[i]);
        assert d[i] != k;
        assert GroupOf(host, ls + [l], d[i]) == GroupOf(host, ls, d[i]);
        assert g'[i] == (d[i], GroupOf(host, ls, d[i])) == g[i] == h[i];
      } else {
        LessonsOfSnoc(host, ls, l, k);
        assert LessonsOf(host, ls + [l], k) == [Summary(l)];
        assert d'[i] == k;
        assert g'[i] == (k, GroupOf(host, ls + [l], k));
      }
    }
  }

  // ---------------------------------------------------------------------
  // Properties of the grouping

  lemma {:induction false} KeptCourseIdsMembers(host: Host, ls: seq<LessonRecord>, k: int)
    ensures k in KeptCourseIds(host, ls) <==>
      exists i :: 0 <= i < |ls| && KeptCourse(host, ls[i]) == Some(k)
  {
    if ls != [] {
      var init, last := ls[..|ls| - 1], ls[|ls| - 1];
      KeptCourseIdsMembers(host, init, k);
      if k in KeptCourseIds(host, ls) && k !in KeptCourseIds(host, init) {
        assert KeptCourse(host, ls[|ls| - 1]) == Some(k);
      }
      if i :| 0 <= i < |ls| && KeptCourse(host, ls[i]) == Some(k) {
        if i < |ls| - 1 {
          assert init[i] == ls[i];
        }
      }
    }
  }

  /**
   * A course has an entry exactly when some lesson is a sample whose course
   * lookup gives that (non-zero) id.
   */
  lemma GroupedKeys(host: Host, ls: seq<LessonRecord>, k: int)
    ensures (exists j :: 0 <= j < |Grouped(host, ls)| && Grouped(host, ls)[j].0 == k) <==>
      exists i :: 0 <= i < |ls| && IsSampleLesson(host, ls[i]) &&
        LessonCourseId(host, ls[i]).CourseId? && LessonCourseId(host, ls[i]).id as int == k && k != 0
  {
    var g, d := Grouped(host, ls), Dedup(KeptCourseIds(host, ls));
    KeptCourseIdsMembers(host, ls, k);
    if j :| 0 <= j < |g| && g[j].0 == k {
      assert d[j] == k;
    }
    if k in d {
      var j :| 0 <= j < |d| && d[j] == k;
      assert g[j].0 == k;
    }
    forall i | 0 <= i < |ls|
      ensures KeptCourse(host, ls[i]) == Some(k) <==>
        IsSampleLesson(host, ls[i]) && LessonCourseId(host, ls[i]).CourseId? &&
        LessonCourseId(host, ls[i]).id as int == k && k != 0
    {
    }
  }

  /**
   * The cards under course `k` are exactly the cards of the lessons kept
   * under `k`: nothing else is listed there and none of them is missing.
   */
  lemma {:induction false} LessonsOfMembers(host: Host, ls: seq<LessonRecord>, k: int, s: LessonSummary)
    ensures s in LessonsOf(host, ls, k) <==>
      exists i :: 0 <= i < |ls| && KeptCourse(host, ls[i]) == Some(k) && Summary(ls[i]) == s
  {
    if ls != [] {
      var init, last := ls[..|ls| - 1], ls[|ls| - 1];
      var tail := if KeptCourse(host, last) == Some(k) then [Summary(last)] else [];
      assert LessonsOf(host, ls, k) == LessonsOf(host, init, k) + tail;
      assert s in LessonsOf(host, ls, k) <==> s in LessonsOf(host, init, k) || s in tail;
      LessonsOfMembers(host, init, k, s);
      if i :| 0 <= i < |ls| && KeptCourse(host, ls[i]) == Some(k) && Summary(ls[i]) == s {
        if i < |ls| - 1 {
          assert init[i] == ls[i];
        } else {
          assert s in tail;
        }
      }
      if s in tail {
        assert KeptCourse(host, ls[|ls| - 1]) == Some(k) && Summary(ls[|ls| - 1]) == s;
      }
      if j :| 0 <= j < |init| && KeptCourse(host, init[j]) == Some(k) && Summary(init[j]) == s {
        assert ls[j] == init[j];
      }
    }
  }

  /**
   * Encounter order: the cards of a course for the lessons `a ++ b` are
   * those for `a` followed by those for `b`.
   */
  lemma {:induction false} LessonsOfInOrder(host: Host, a: seq<LessonRecord>, b: seq<LessonRecord>, k: int)
    ensures LessonsOf(host, a + b, k) == LessonsOf(host, a, k) + LessonsOf(host, b, k)
  {
    if b != [] {
      var init, last := b[..|b| - 1], b[|b| - 1];
      assert a + b == (a + init) + [last];
      assert b == init + [last];
      LessonsOfSnoc(host, a + init, last, k);
      LessonsOfSnoc(host, init, last, k);
      LessonsOfInOrder(host, a, init, k);
    } else {
      assert a + b == a;
    }
  }

  lemma {:induction false} TotalLessonsUpdate(es: seq<Entry>, j: nat, e: Entry)
    requires j < |es|
    ensures TotalLessons(es[j := e]) == TotalLessons(es) - |es[j].1.lessons| + |e.1.lessons|
  {
    var n := |es|;
    if j < n - 1 {
      assert es[j := e][..n - 1] == es[..n - 1][j := e];
      TotalLessonsUpdate(es[..n - 1], j, e);
    } else {
      assert es[j := e][..n - 1] == es[..n - 1];
    }
  }

  lemma TotalLessonsSnoc(es: seq<Entry>, e: Entry)
    ensures TotalLessons(es + [e]) == TotalLessons(es) + |e.1.lessons|
  {
    assert (es + [e])[..|es|] == es;
  }

  /** Every kept lesson is placed exactly once: the cards add up to the kept lessons. */
  lemma {:induction false} GroupedTotal(host: Host, ls: seq<LessonRecord>)
    ensures TotalLessons(Grouped(host, ls)) == |KeptCourseIds(host, ls)|
  {
    if ls != [] {
      var init, last := ls[..|ls| - 1], ls[|ls| - 1];
      assert ls == init + [last];
      GroupedTotal(host, init);
      KeptCourseIdsSnoc(host, init, last);
      var g := Grouped(host, init);
      match KeptCourse(host, last)
      case None =>
        GroupedStepSkip(host, init, last);
      case Some(k) =>
        var j := KeyIndex(g, k);
        if j < |g| {
          GroupedStepExisting(host, init, last, k);
          TotalLessonsUpdate(g, j, (k, g[j].1.(lessons := g[j].1.lessons + [Summary(last)])));
        } else {
          GroupedStepNew(host, init, last, k);
          TotalLessonsSnoc(g, (k, CourseGroup(host.courseTitle(k), host.courseUrl(k), [Summary(last)])));
        }
    }
  }

  // ---------------------------------------------------------------------
  // Distinct keys

  /** An entry occurs at most once in a list whose keys are distinct. */
  lemma {:induction false} DistinctKeysOccurOnce(es: seq<Entry>, e: Entry)
    requires DistinctKeys(es)
    ensures multiset(es)[e] <= 1
  {
    if es != [] {
      var init, last := es[..|es| - 1], es[|es| - 1];
      assert es == init + [last];
      assert DistinctKeys(init);
      DistinctKeysOccurOnce(init, e);
      if last == e {
        forall p | 0 <= p < |init| ensures init[p] != e {
          assert init[p] == es[p];
        }
        assert e !in init;
      }
    }
  }

  /** An entry that occurs at most once is not repeated at a later position. */
  lemma NoRepeatAt(es: seq<Entry>, i: nat, j: nat)
    requires i < j < |es|
    requires multiset(es)[es[i]] <= 1
    ensures es[i] != es[j]
  {
    var a, b := es[..j], es[j..];
    assert es == a + b;
    assert a[i] == es[i];
    assert b[0] == es[j];
  }

  /** In a list with distinct keys, the key determines the entry. */
  lemma SameKeySameEntry(es: seq<Entry>, x: Entry, y: Entry)
    requires DistinctKeys(es)
    requires x in es && y in es
    ensures x.0 == y.0 ==> x == y
  {
    var p :| 0 <= p < |es| && es[p] == x;
    var q :| 0 <= q < |es| && es[q] == y;
  }

  /** Reordering the entries keeps their keys distinct. */
  lemma PermutationKeepsDistinctKeys(a: seq<Entry>, b: seq<Entry>)
    requires multiset(a) == multiset(b)
    requires DistinctKeys(b)
    ensures DistinctKeys(a)
  {
    forall i, j | 0 <= i < j < |a| ensures a[i].0 != a[j].0 {
      assert a[i] in multiset(b) && a[j] in multiset(b);
      DistinctKeysOccurOnce(b, a[i]);
      NoRepeatAt(a, i, j);
      SameKeySameEntry(b, a[i], a[j]);
    }
  }

  // ---------------------------------------------------------------------
  // uasort by strcasecmp of course_title

  predicate TitleLe(a: Entry, b: Entry) {
    StrCaseCmp(a.1.courseTitle, b.1.courseTitle) <= 0
  }

  predicate SortedByTitle(es: seq<Entry>) {
    forall i, j | 0 <= i < j < |es| :: TitleLe(es[i], es[j])
  }

  /** Inserts `e` after every entry whose title does not sort after it. */
  function InsertByTitle(sorted: seq<Entry>, e: Entry): (r: seq<Entry>)
    ensures multiset(r) == multiset(sorted) + multiset{e}
  {
    if sorted == [] then [e]
    else if StrCaseCmp(e.1.courseTitle, sorted[0].1.courseTitle) < 0 then [e] + sorted
    else
      assert sorted == [sorted[0]] + sorted[1..];
      [sorted[0]] + InsertByTitle(sorted[1..], e)
  }

  lemma {:induction false} InsertByTitleSorted(sorted: seq<Entry>, e: Entry)
    requires SortedByTitle(sorted)
    ensures SortedByTitle(InsertByTitle(sorted, e))
  {
    if sorted != [] {
      var r := InsertByTitle(sorted, e);
      var s0 := sorted[0];
      if StrCaseCmp(e.1.courseTitle, s0.1.courseTitle) < 0 {
        forall j | 0 < j < |r| ensures TitleLe(r[0], r[j]) {
          if j > 1 {
            StrCaseCmpTransitive(e.1.courseTitle, s0.1.courseTitle, r[j].1.courseTitle);
          }
        }
      } else {
        StrCaseCmpAntisymmetric(e.1.courseTitle, s0.1.courseTitle);
        var rest := InsertByTitle(sorted[1..], e);
        InsertByTitleSorted(sorted[1..], e);
        forall j | 0 <= j < |rest| ensures TitleLe(s0, rest[j]) {
          assert rest[j] in multiset(rest);
          if rest[j] != e {
            assert rest[j] in sorted[1..];
          }
        }
      }
    }
  }

  /** The sort: titles in non-decreasing `strcasecmp` order, same entries. */
  method SortByTitle(es: seq<Entry>) returns (r: seq<Entry>)
    ensures SortedByTitle(r)
    ensures multiset(r) == multiset(es)
  {
    r := [];
    var i := 0;
    while i < |es|
      invariant 0 <= i <= |es|
      invariant SortedByTitle(r)
      invariant multiset(r) == multiset(es[..i])
    {
      InsertByTitleSorted(r, es[i]);
      r := InsertByTitle(r, es[i]);
      assert es[..i + 1] == es[..i] + [es[i]];
      i := i + 1;
    }
    assert es[..i] == es;
  }

  // ---------------------------------------------------------------------
  // slv_get_sample_lessons

  /**
   * The loop over the published lessons: it leaves exactly `Grouped` in the
   * associative array.
   */
  method CollectSampleLessons(host: Host, lessons: seq<LessonRecord>) returns (built: seq<Entry>)
    ensures built == Grouped(host, lessons)
  {
    built := [];
    var i := 0;
    while i < |lessons|
      invariant 0 <= i <= |lessons|
      invariant built == Grouped(host, lessons[..i])
    {
      var lesson := lessons[i];
      ghost var done := lessons[..i];
      assert lessons[..i + 1] == done + [lesson];
      if IsSampleLesson(host, lesson) {
        var courseId := LessonCourseId(host, lesson);
        if courseId.CourseId? && courseId.id != 0 {
          var k := courseId.id as int;
          assert KeptCourse(host, lesson) == Some(k);
          var j := KeyIndex(built, k);
          if j == |built| {
            GroupedStepNew(host, done, lesson, k);
            built := built + [(k, CourseGroup(host.courseTitle(k), host.courseUrl(k), []))];
          } else {
            GroupedStepExisting(host, done, lesson, k);
          }
          built := built[j := (k, built[j].1.(lessons := built[j].1.lessons + [Summary(lesson)]))];
        } else {
          assert KeptCourse(host, lesson).None?;
          GroupedStepSkip(host, done, lesson);
        }
      } else {
        GroupedStepSkip(host, done, lesson);
      }
      i := i + 1;
    }
    assert lessons[..i] == lessons;
  }

  /**
   * Without LearnDash the result is empty; otherwise it holds exactly the
   * entries of `Grouped`, sorted by course title, each course once.
   */
  method GetSampleLessons(host: Host, lessons: seq<LessonRecord>) returns (groups: seq<Entry>)
    ensures !host.learnDashActive ==> groups == []
    ensures host.learnDashActive ==>
      SortedByTitle(groups) && multiset(groups) == multiset(Grouped(host, lessons))
    ensures DistinctKeys(groups)
  {
    if !host.learnDashActive {
      return [];
    }
    var built := CollectSampleLessons(host, lessons);
    groups := SortByTitle(built);
    PermutationKeepsDistinctKeys(groups, built);
  }
}
