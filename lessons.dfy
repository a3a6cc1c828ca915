/**
 * The two lesson classifiers of the plugin: "is this lesson a free sample?"
 * and "which course does it belong to?". Each tries three lookups in a
 * fixed order, and the first lookup that applies decides, even when its
 * answer is `false` or 0.
 */
module Lessons {
  import opened Php

  /** Key of the sample flag inside the `_sfwd-lessons` settings array. */
  const SAMPLE_SETTING: string := "sfwd-lessons_sample_lesson"
  /** Key of the course id inside the `_sfwd-lessons` settings array. */
  const COURSE_SETTING: string := "sfwd-lessons_course"

  /**
   * What the host site answers about one lesson: the LearnDash functions'
   * answers (used only when those functions exist), the three post meta
   * values the classifiers read, and the fields copied into a lesson card.
   */
  datatype LessonRecord = LessonRecord(
    id: PhpInt,
    hostIsSample: bool,     // learndash_is_sample( id )
    hostCourseId: PhpInt,   // learndash_get_course_id( id )
    settings: Value,        // get_post_meta( id, '_sfwd-lessons', true )
    sampleMeta: Value,      // get_post_meta( id, 'sample_lesson', true )
    courseMeta: Value,      // get_post_meta( id, 'course_id', true )
    title: string,
    url: string,
    excerpt: string,
    thumbnail: Option<string>)

  /** The host site as far as the plugin can see it. */
  datatype Host = Host(
    learnDashActive: bool,  // class_exists( 'SFWD_LMS' )
    hasIsSample: bool,      // function_exists( 'learndash_is_sample' )
    hasGetCourseId: bool,   // function_exists( 'learndash_get_course_id' )
    courseTitle: int -> string,  // get_the_title( course id )
    courseUrl: int -> string)    // get_permalink( course id )

  /** The `int|false` a course lookup returns. */
  datatype CourseLookup = NoCourse | CourseId(id: PhpInt)

  // ---------------------------------------------------------------------
  // Ordered strategies

  /** Strategy `i` applies and no earlier one does. */
  predicate Decides<T>(strategies: seq<Option<T>>, i: int) {
    0 <= i < |strategies| && strategies[i].Some? &&
    forall j | 0 <= j < i :: strategies[j].None?
  }

  /**
   * The answer of the first strategy that applies, or `otherwise` when none
   * does.
   */
  function FirstApplicable<T>(strategies: seq<Option<T>>, otherwise: T): (r: T)
    ensures forall i | Decides(strategies, i) :: r == strategies[i].value
    ensures (forall i | 0 <= i < |strategies| :: strategies[i].None?) ==> r == otherwise
  {
    if strategies == [] then otherwise
    else if strategies[0].Some? then strategies[0].value
    else
      var r := FirstApplicable(strategies[1..], otherwise);
      assert forall i | Decides(strategies, i) :: Decides(strategies[1..], i - 1);
      r
  }

  // ---------------------------------------------------------------------
  // Is the lesson a sample?

  function SampleFromHost(host: Host, l: LessonRecord): Option<bool> {
    if host.hasIsSample then Some(l.hostIsSample) else None
  }

  function SampleFromSettings(l: LessonRecord): Option<bool> {
    if l.settings.Arr? && Isset(l.settings.entries, SAMPLE_SETTING)
    then Some(l.settings.entries[SAMPLE_SETTING] == Str("on"))
    else None
  }

  function SampleFromMeta(l: LessonRecord): Option<bool> {
    if l.sampleMeta == Str("on") || l.sampleMeta == Str("1") || l.sampleMeta == Bool(true)
    then Some(true)
    else None
  }

  /**
   * `slv_is_sample_lesson`: LearnDash's own answer when it has one; else a
   * set sample flag in the settings array, compared with 'on'; else the
   * flat meta value 'on', '1' or `true`; and `false` when none of these says
   * so.
   */
  function IsSampleLesson(host: Host, l: LessonRecord): (r: bool)
    ensures r <==>
      if host.hasIsSample then l.hostIsSample
      else if l.settings.Arr? && Isset(l.settings.entries, SAMPLE_SETTING)
      then l.settings.entries[SAMPLE_SETTING] == Str("on")
      else l.sampleMeta == Str("on") || l.sampleMeta == Str("1") || l.sampleMeta == Bool(true)
  {
    var lookups := [SampleFromHost(host, l), SampleFromSettings(l), SampleFromMeta(l)];
    assert lookups[0].Some? ==> Decides(lookups, 0);
    assert lookups[0].None? && lookups[1].Some? ==> Decides(lookups, 1);
    assert lookups[0].None? && lookups[1].None? && lookups[2].Some? ==> Decides(lookups, 2);
    FirstApplicable(lookups, false)
  }

  /** When LearnDash's own test exists its answer is final. */
  lemma SampleFromHostIsFinal(host: Host, l: LessonRecord)
    requires host.hasIsSample
    ensures IsSampleLesson(host, l) == l.hostIsSample
  {
    assert Decides([SampleFromHost(host, l), SampleFromSettings(l), SampleFromMeta(l)], 0);
  }

  /**
   * Without it, a set sample flag in the settings array decides, as
   * "value === 'on'", and the flat `sample_lesson` meta is never consulted.
   */
  lemma SampleFromSettingsDecides(host: Host, l: LessonRecord)
    requires !host.hasIsSample
    requires l.settings.Arr? && Isset(l.settings.entries, SAMPLE_SETTING)
    ensures IsSampleLesson(host, l) == (l.settings.entries[SAMPLE_SETTING] == Str("on"))
    ensures forall m :: IsSampleLesson(host, l.(sampleMeta := m)) == IsSampleLesson(host, l)
  {
    assert Decides([SampleFromHost(host, l), SampleFromSettings(l), SampleFromMeta(l)], 1);
    forall m ensures IsSampleLesson(host, l.(sampleMeta := m)) == IsSampleLesson(host, l) {
      var l' := l.(sampleMeta := m);
      assert Decides([SampleFromHost(host, l'), SampleFromSettings(l'), SampleFromMeta(l')], 1);
    }
  }

  /** Otherwise the lesson is a sample iff its meta is 'on', '1' or boolean true. */
  lemma SampleFromMetaFallback(host: Host, l: LessonRecord)
    requires !host.hasIsSample
    requires !(l.settings.Arr? && Isset(l.settings.entries, SAMPLE_SETTING))
    ensures IsSampleLesson(host, l) <==>
      l.sampleMeta == Str("on") || l.sampleMeta == Str("1") || l.sampleMeta == Bool(true)
  {
    if SampleFromMeta(l).Some? {
      assert Decides([SampleFromHost(host, l), SampleFromSettings(l), SampleFromMeta(l)], 2);
    }
  }

  // ---------------------------------------------------------------------
  // Which course does the lesson belong to?

  function CourseFromHost(host: Host, l: LessonRecord): Option<CourseLookup> {
    if host.hasGetCourseId then Some(CourseId(l.hostCourseId)) else None
  }

  function CourseFromSettings(l: LessonRecord): Option<CourseLookup> {
    if l.settings.Arr? && Isset(l.settings.entries, COURSE_SETTING)
    then Some(CourseId(IntVal(l.settings.entries[COURSE_SETTING])))
    else None
  }

  function CourseFromMeta(l: LessonRecord): Option<CourseLookup> {
    if Truthy(l.courseMeta) then Some(CourseId(IntVal(l.courseMeta))) else None
  }

  /**
   * `slv_get_lesson_course_id`: LearnDash's own answer when it has one; else
   * the `intval` of a set course entry in the settings array; else the
   * `intval` of a truthy flat meta value; and `false` otherwise.
   */
  function LessonCourseId(host: Host, l: LessonRecord): (r: CourseLookup)
    ensures r ==
      if host.hasGetCourseId then CourseId(l.hostCourseId)
      else if l.settings.Arr? && Isset(l.settings.entries, COURSE_SETTING)
      then CourseId(IntVal(l.settings.entries[COURSE_SETTING]))
      else if Truthy(l.courseMeta) then CourseId(IntVal(l.courseMeta))
      else NoCourse
  {
    var lookups := [CourseFromHost(host, l), CourseFromSettings(l), CourseFromMeta(l)];
    assert lookups[0].Some? ==> Decides(lookups, 0);
    assert lookups[0].None? && lookups[1].Some? ==> Decides(lookups, 1);
    assert lookups[0].None? && lookups[1].None? && lookups[2].Some? ==> Decides(lookups, 2);
    FirstApplicable(lookups, NoCourse)
  }

  /** When LearnDash's own lookup exists its answer is final, even 0. */
  lemma CourseFromHostIsFinal(host: Host, l: LessonRecord)
    requires host.hasGetCourseId
    ensures LessonCourseId(host, l) == CourseId(l.hostCourseId)
  {
    assert Decides([CourseFromHost(host, l), CourseFromSettings(l), CourseFromMeta(l)], 0);
  }

  /**
   * Without it, a set course entry in the settings array decides, as its
   * `intval` (even 0), and the flat `course_id` meta is never consulted.
   */
  lemma CourseFromSettingsDecides(host: Host, l: LessonRecord)
    requires !host.hasGetCourseId
    requires l.settings.Arr? && Isset(l.settings.entries, COURSE_SETTING)
    ensures LessonCourseId(host, l) == CourseId(IntVal(l.settings.entries[COURSE_SETTING]))
    ensures forall m :: LessonCourseId(host, l.(courseMeta := m)) == LessonCourseId(host, l)
  {
    assert Decides([CourseFromHost(host, l), CourseFromSettings(l), CourseFromMeta(l)], 1);
    forall m ensures LessonCourseId(host, l.(courseMeta := m)) == LessonCourseId(host, l) {
      var l' := l.(courseMeta := m);
      assert Decides([CourseFromHost(host, l'), CourseFromSettings(l'), CourseFromMeta(l')], 1);
    }
  }

  /**
   * Otherwise a truthy `course_id` meta gives its `intval`, and with no
   * truthy meta the answer is `false`.
   */
  lemma CourseFromMetaFallback(host: Host, l: LessonRecord)
    requires !host.hasGetCourseId
    requires !(l.settings.Arr? && Isset(l.settings.entries, COURSE_SETTING))
    ensures Truthy(l.courseMeta) ==> LessonCourseId(host, l) == CourseId(IntVal(l.courseMeta))
    ensures !Truthy(l.courseMeta) ==> LessonCourseId(host, l) == NoCourse
  {
    if Truthy(l.courseMeta) {
      assert Decides([CourseFromHost(host, l), CourseFromSettings(l), CourseFromMeta(l)], 2);
    }
  }

  // ---------------------------------------------------------------------
  // The builder's test

  /** The `int|false` answer of a course lookup as a PHP value. */
  function LookupValue(c: CourseLookup): Value {
    match c
    case NoCourse => Bool(false)
    case CourseId(k) => Int(k)
  }

  /**
   * The course a lesson is listed under: `Some(k)` when the lesson is a
   * sample and its course lookup is truthy (a non-zero id), else `None`.
   */
  function KeptCourse(host: Host, l: LessonRecord): Option<int> {
    if IsSampleLesson(host, l) then
      match LessonCourseId(host, l)
      case CourseId(k) => if k != 0 then Some(k as int) else None
      case NoCourse => None
    else None
  }

  /**
   * The builder's two tests in PHP's terms: a lesson is kept exactly when it
   * is a sample and the `int|false` its course lookup answers is truthy, and
   * it is kept under the `intval` of that answer.
   */
  lemma KeptCourseIsTruthyLookup(host: Host, l: LessonRecord)
    ensures KeptCourse(host, l).Some? <==>
      IsSampleLesson(host, l) && Truthy(LookupValue(LessonCourseId(host, l)))
    ensures KeptCourse(host, l).Some? ==>
      KeptCourse(host, l).value == IntVal(LookupValue(LessonCourseId(host, l))) as int
  {
  }
}
