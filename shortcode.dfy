/**
 * The decision part of the `[learndash_sample_lessons]` shortcode callback
 * `slv_display_sample_lessons`: the LearnDash check, the optional
 * restriction to a comma-separated list of course ids, and the fixed
 * message for an empty result. The HTML of a non-empty listing is not
 * modelled; a `Listing` page carries the entries it shows.
 */
module Shortcode {
  import opened Php
  import opened Lessons
  import opened Grouping

  /** The paragraph returned when LearnDash is not active. */
  const LEARNDASH_REQUIRED: string :=
    "<p class=\"slv-error\">LearnDash LMS is required to display sample lessons.</p>"

  /** The paragraph returned when no entry is left to show. */
  const NO_LESSONS_FOUND: string :=
    "<p class=\"slv-no-lessons\">No sample lessons found.</p>"

  /**
   * The shortcode attributes that reach the model: `columns` (default 3,
   * only passed through `intval`) and `course_id` (default '').
   */
  datatype Attributes = Attributes(columns: Value, courseId: string)

  const DEFAULT_ATTRIBUTES: Attributes := Attributes(Int(3), "")

  datatype Page =
    | Message(html: string)
    | Listing(groups: seq<Entry>, columns: PhpInt)

  // ---------------------------------------------------------------------
  // The course filter

  /**
   * `array_map( 'intval', explode( ',', $course_id ) )`: one 64-bit id per
   * comma-separated piece.
   */
  function CourseIdList(attr: string): (ids: seq<int>)
    ensures |ids| == multiset(attr)[','] + 1
    ensures forall i | 0 <= i < |ids| :: MIN_INT <= ids[i] <= MAX_INT
  {
    var parts := Explode(attr);
    ExplodeLength(attr);
    seq(|parts|, i requires 0 <= i < |parts| => StringToInt(parts[i]) as int)
  }

  /** The ids PHP prints, joined by commas, are read back exactly. */
  lemma CourseIdListOfDecimals(ids: seq<PhpInt>)
    requires |ids| >= 1
    ensures CourseIdList(Implode(seq(|ids|, i requires 0 <= i < |ids| => Decimal(ids[i])))) ==
      seq(|ids|, i requires 0 <= i < |ids| => ids[i] as int)
  {
    var parts := seq(|ids|, i requires 0 <= i < |ids| => Decimal(ids[i]));
    forall i | 0 <= i < |parts| ensures ',' !in parts[i] && StringToInt(parts[i]) == ids[i] {
      DecimalRoundTrip(ids[i]);
      var n := ids[i] as int;
      var m: nat := if n < 0 then -n else n;
      assert parts[i] == Decimal(n);
      var d := Digits(m);
      assert forall c | c in d :: IsDigit(c) by {
        forall c | c in d ensures IsDigit(c) {
          var k :| 0 <= k < |d| && d[k] == c;
        }
      }
    }
    ExplodeImplode(parts);
  }

  /** The key survives the filter: no filter given, or the key is in the list. */
  predicate Selected(k: int, attr: string) {
    EmptyString(attr) || k in CourseIdList(attr)
  }

  /** `r` is `s` with some elements left out, order kept. */
  predicate SubsequenceOf<T(==)>(r: seq<T>, s: seq<T>)
    decreases |s|
  {
    if r == [] then true
    else if s == [] then false
    else (r[0] == s[0] && SubsequenceOf(r[1..], s[1..])) || SubsequenceOf(r, s[1..])
  }

  /** `array_intersect_key( $es, array_flip( $ids ) )`. */
  function KeepKeys(es: seq<Entry>, ids: seq<int>): (r: seq<Entry>)
    ensures SubsequenceOf(r, es)
    ensures forall e :: e in r <==> e in es && e.0 in ids
  {
    if es == [] then []
    else
      var rest := KeepKeys(es[1..], ids);
      assert forall e :: e in es <==> e == es[0] || e in es[1..];
      if es[0].0 in ids then [es[0]] + rest else rest
  }

  /**
   * The course filter: an empty attribute ('' or '0') keeps every entry;
   * otherwise exactly the entries whose key is listed are kept, in their
   * existing order.
   */
  function FilterByCourses(groups: seq<Entry>, attr: string): (r: seq<Entry>)
    ensures EmptyString(attr) ==> r == groups
    ensures SubsequenceOf(r, groups)
    ensures forall e :: e in r <==> e in groups && Selected(e.0, attr)
  {
    if EmptyString(attr) then
      SubsequenceOfSelf(groups);
      groups
    else KeepKeys(groups, CourseIdList(attr))
  }

  lemma {:induction false} SubsequenceOfSelf<T>(s: seq<T>)
    ensures SubsequenceOf(s, s)
  {
    if s != [] {
      SubsequenceOfSelf(s[1..]);
    }
  }

  lemma {:induction false} SubsequenceMembers<T>(r: seq<T>, s: seq<T>)
    requires SubsequenceOf(r, s)
    ensures forall x | x in r :: x in s
    decreases |s|
  {
    if r != [] {
      if r[0] == s[0] && SubsequenceOf(r[1..], s[1..]) {
        SubsequenceMembers(r[1..], s[1..]);
        assert forall x | x in r :: x == r[0] || x in r[1..];
      } else {
        SubsequenceMembers(r, s[1..]);
      }
    }
  }

  /** Leaving entries out of a sorted listing keeps it sorted. */
  lemma {:induction false} SubsequenceKeepsSorted(r: seq<Entry>, s: seq<Entry>)
    requires SubsequenceOf(r, s)
    requires SortedByTitle(s)
    ensures SortedByTitle(r)
    decreases |s|
  {
    if r != [] {
      assert SortedByTitle(s[1..]);
      if r[0] == s[0] && SubsequenceOf(r[1..], s[1..]) {
        SubsequenceKeepsSorted(r[1..], s[1..]);
        SubsequenceMembers(r[1..], s[1..]);
        forall i, j | 0 <= i < j < |r| ensures TitleLe(r[i], r[j]) {
          if i == 0 {
            assert r[j] in r[1..];
            var m :| 0 <= m < |s[1..]| && s[1..][m] == r[j];
            assert TitleLe(s[0], s[m + 1]);
          } else {
            assert r[i] == r[1..][i - 1] && r[j] == r[1..][j - 1];
          }
        }
      } else {
        SubsequenceKeepsSorted(r, s[1..]);
      }
    }
  }

  /** Leaving entries out keeps the keys distinct. */
  lemma {:induction false} SubsequenceKeepsDistinctKeys(r: seq<Entry>, s: seq<Entry>)
    requires SubsequenceOf(r, s)
    requires DistinctKeys(s)
    ensures DistinctKeys(r)
    decreases |s|
  {
    if r != [] {
      assert DistinctKeys(s[1..]);
      if r[0] == s[0] && SubsequenceOf(r[1..], s[1..]) {
        SubsequenceKeepsDistinctKeys(r[1..], s[1..]);
        SubsequenceMembers(r[1..], s[1..]);
        forall i, j | 0 <= i < j < |r| ensures r[i].0 != r[j].0 {
          if i == 0 {
            assert r[j] in r[1..];
            var m :| 0 <= m < |s[1..]| && s[1..][m] == r[j];
            assert s[0].0 != s[m + 1].0;
          } else {
            assert r[i] == r[1..][i - 1] && r[j] == r[1..][j - 1];
          }
        }
      } else {
        SubsequenceKeepsDistinctKeys(r, s[1..]);
      }
    }
  }

  // ---------------------------------------------------------------------
  // slv_display_sample_lessons

  /**
   * Without LearnDash: the error paragraph. Otherwise the sorted entries
   * the course filter keeps; when none is kept, exactly the "no lessons"
   * paragraph and no wrapper.
   */
  method DisplaySampleLessons(host: Host, lessons: seq<LessonRecord>, atts: Attributes)
    returns (page: Page)
    ensures !host.learnDashActive ==> page == Message(LEARNDASH_REQUIRED)
    ensures host.learnDashActive ==>
      (page == Message(NO_LESSONS_FOUND) <==>
        forall e | e in Grouped(host, lessons) :: !Selected(e.0, atts.courseId))
    ensures host.learnDashActive && page.Message? ==> page.html == NO_LESSONS_FOUND
    ensures page.Listing? ==>
      page.groups != [] && SortedByTitle(page.groups) && DistinctKeys(page.groups) &&
      page.columns == IntVal(atts.columns) &&
      forall e :: e in page.groups <==> e in Grouped(host, lessons) && Selected(e.0, atts.courseId)
    ensures page.Listing? && atts == DEFAULT_ATTRIBUTES ==>
      page.columns == 3 && forall e :: e in page.groups <==> e in Grouped(host, lessons)
  {
    if !host.learnDashActive {
      return Message(LEARNDASH_REQUIRED);
    }
    var all := GetSampleLessons(host, lessons);
    assert forall e :: e in all <==> e in Grouped(host, lessons) by {
      forall e ensures e in all <==> e in Grouped(host, lessons) {
        assert e in all <==> e in multiset(all);
        assert e in Grouped(host, lessons) <==> e in multiset(Grouped(host, lessons));
      }
    }
    var shown := FilterByCourses(all, atts.courseId);
    SubsequenceKeepsSorted(shown, all);
    SubsequenceKeepsDistinctKeys(shown, all);
    if shown == [] {
      return Message(NO_LESSONS_FOUND);
    }
    assert shown[0] in shown;
    return Listing(shown, IntVal(atts.columns));
  }
}
