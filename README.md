# Sample Lesson Viewer for LearnDash: a Dafny model of its lesson aggregation

The WordPress plugin "Sample Lesson Viewer for LearnDash" adds a shortcode,
`[learndash_sample_lessons]`. The shortcode lists every LearnDash lesson that is
marked as a free sample, grouped under its course. This project models the logic
behind that listing and proves its properties:

- **The two classifiers** (module `Lessons`, `lessons.dfy`).
  - `slv_is_sample_lesson` decides whether a lesson is a sample.
  - `slv_get_lesson_course_id` decides which course a lesson belongs to.
  - Each tries three lookups in a fixed order: the LearnDash function when it
    exists, then the `_sfwd-lessons` settings array, then a flat post meta value.
    The first lookup that applies decides, even when its answer is `false` or 0.
  - Both are written through one helper, `FirstApplicable`, which takes the
    ordered list of lookups.
  - The host's answers are fields of a `LessonRecord`.
  - The `function_exists` / `class_exists` tests and the course title and
    permalink lookups are fields of a `Host` record.
- **The builder** `slv_get_sample_lessons` (module `Grouping`, `grouping.dfy`).
  - Two methods for its two phases. `CollectSampleLessons` is the loop over
    the lesson sequence. It builds the ordered associative array
    `course id => {course_title, course_url, lessons}` as a sequence of pairs.
    `GetSampleLessons` then sorts that array by `strcasecmp` of the course
    title.
  - The loop is proved against `Grouped`, an independent definition: the
    distinct kept course ids in first-encounter order, each paired with the
    in-order list of its kept lessons.
- **The shortcode callback's decisions** `slv_display_sample_lessons` (module
  `Shortcode`, `shortcode.dfy`).
  - The LearnDash check.
  - The `course_id` filter (`explode`, `intval`, `array_intersect_key`).
  - The fixed "no lessons" paragraph.
- **The PHP semantics these rely on** (module `Php`, `php.dfy`): loosely typed
  meta values, truthiness, `isset`, `empty` on a string, `intval`, `explode` /
  `implode` on a comma, and `strcasecmp`.

Behaviour worth noting:

- `columns` is only passed through `intval`; any integer reaches the listing.
- `orderby` / `order` are read but have no effect.
- A `course_id` attribute of `"0"` counts as empty (PHP's `empty("0")`), so it
  leaves the listing unfiltered.

## Model

| member | source | states |
|---|---|---|
| `Lessons.FirstApplicable` | sample-lesson-viewer.php:137-188 | the result is the answer of the first lookup that applies (whatever that answer is), and the fallback when none applies |
| `Lessons.IsSampleLesson` | sample-lesson-viewer.php:137-160 | the whole decision table: LearnDash's answer when `learndash_is_sample` exists; else, for a set `sfwd-lessons_sample_lesson`, "value === 'on'"; else "meta is 'on', '1' or `true`" |
| `Lessons.SampleFromHostIsFinal` | sample-lesson-viewer.php:139-141 | when `learndash_is_sample` exists, its answer is returned unchanged |
| `Lessons.SampleFromSettingsDecides` | sample-lesson-viewer.php:143-151 | otherwise a set `sfwd-lessons_sample_lesson` gives exactly "value === 'on'", and the `sample_lesson` meta cannot change the result |
| `Lessons.SampleFromMetaFallback` | sample-lesson-viewer.php:153-159 | otherwise the lesson is a sample iff the `sample_lesson` meta is `'on'`, `'1'` or boolean `true` |
| `Lessons.LessonCourseId` | sample-lesson-viewer.php:168-188 | the whole decision table: LearnDash's answer when `learndash_get_course_id` exists; else the `intval` of a set `sfwd-lessons_course`; else the `intval` of a truthy `course_id` meta; else `false` |
| `Lessons.CourseFromHostIsFinal` | sample-lesson-viewer.php:170-172 | when `learndash_get_course_id` exists, its answer is final, 0 included |
| `Lessons.CourseFromSettingsDecides` | sample-lesson-viewer.php:174-179 | otherwise a set `sfwd-lessons_course` gives its `intval`, even 0, and the `course_id` meta cannot change the result |
| `Lessons.CourseFromMetaFallback` | sample-lesson-viewer.php:181-187 | otherwise a truthy `course_id` meta gives its `intval`, and anything else gives `false` |
| `Lessons.KeptCourseIsTruthyLookup` | sample-lesson-viewer.php:95-101 | a lesson is kept exactly when it is a sample and its `int|false` course answer is truthy (so `false` and 0 are both dropped), and it is kept under that answer's `intval` |
| `Php.TruthyScalars` | sample-lesson-viewer.php:101 | spells out PHP's boolean conversion for the two scalar kinds the plugin tests: an integer is truthy iff it is not 0, and the only `empty()` (falsy) strings are `''` and `'0'` |
| `Php.IntValNonZeroIsTruthy` | sample-lesson-viewer.php:183-184 | a non-zero `intval` only comes from a truthy value (a truthy meta can still yield 0, which the builder then drops) |
| `Php.IntValOfStoredId` | sample-lesson-viewer.php:177-184 | `intval` of a stored id, with leading whitespace and followed by text that does not start with a digit, `.`, `e` or `E`, is that id, for every 64-bit id |
| `Php.StringToIntSaturates` | sample-lesson-viewer.php:221 | a digit string beyond the 64-bit range reads as the largest integer |
| `Php.StringToIntSaturatesNegative` | sample-lesson-viewer.php:221 | a minus sign and a digit string beyond the 64-bit range read as the smallest integer |
| `Php.DecimalRoundTrip` | sample-lesson-viewer.php:221 | `intval` reads back every 64-bit integer written in decimal |
| `Php.Explode` | sample-lesson-viewer.php:221 | `explode(',', s)` always gives at least one piece, and no piece holds a comma |
| `Php.ExplodeLength` | sample-lesson-viewer.php:221 | `explode(',', s)` gives one piece more than `s` has commas |
| `Php.ImplodeExplode` | sample-lesson-viewer.php:221 | joining the pieces of `explode(',', s)` with commas gives back `s` |
| `Php.ExplodeImplode` | sample-lesson-viewer.php:221 | splitting a comma-joined list of comma-free pieces gives back the pieces |
| `Php.StrCaseCmpPrefix` | sample-lesson-viewer.php:125 | a title sorts before every longer title it begins, and the result is minus the length difference |
| `Php.StrCaseCmpZero` | sample-lesson-viewer.php:125 | two titles compare equal iff they agree after ASCII lower-casing |
| `Php.StrCaseCmpAntisymmetric` | sample-lesson-viewer.php:124-126 | swapping the titles negates the comparison |
| `Php.StrCaseCmpTransitive` | sample-lesson-viewer.php:124-126 | "sorts no later than" is transitive, so the sort's order is well defined |
| `Grouping.Dedup` | sample-lesson-viewer.php:102-108 | the course keys are exactly the kept course ids, each once |
| `Grouping.DedupFirstOccurrenceOrder` | sample-lesson-viewer.php:102-108 | the keys are in order of first occurrence: of two keys, the earlier one has the earlier first kept lesson |
| `Grouping.Grouped` | sample-lesson-viewer.php:102-116 | no course id is the key of two entries |
| `Grouping.KeyIndex` | sample-lesson-viewer.php:102 | `isset`: the position of the key if present, and no position holds the key otherwise |
| `Grouping.GroupedStepSkip` | sample-lesson-viewer.php:95-101 | a lesson that is not a sample, or has no truthy course id, changes nothing |
| `Grouping.GroupedStepExisting` | sample-lesson-viewer.php:102-116 | a kept lesson of a course already present is appended to that entry's lessons; the entry's title and URL and all other entries are unchanged |
| `Grouping.GroupedStepNew` | sample-lesson-viewer.php:102-116 | a kept lesson of a new course adds one entry at the end, holding that course's title, permalink and the one lesson |
| `Grouping.KeptCourseIdsMembers` | sample-lesson-viewer.php:95-101 | a course id is among the kept ids iff some lesson is kept under it |
| `Grouping.GroupedKeys` | sample-lesson-viewer.php:95-108 | a course has an entry iff some lesson is a sample whose course lookup gives that non-zero id |
| `Grouping.LessonsOfMembers` | sample-lesson-viewer.php:95-116 | a card is listed under course `k` iff it is the card of a lesson kept under `k` |
| `Grouping.LessonsOfInOrder` | sample-lesson-viewer.php:110-116 | the cards of a course follow input order: for the input `a + b`, those of `a` come first, then those of `b` |
| `Grouping.GroupedTotal` | sample-lesson-viewer.php:102-116 | every kept lesson is placed exactly once: the cards across all entries add up to the number of kept lessons |
| `Grouping.CollectSampleLessons` | sample-lesson-viewer.php:76-120 | the loop over the lessons leaves exactly `Grouped` in the associative array |
| `Grouping.InsertByTitle` | sample-lesson-viewer.php:124-126 | inserting an entry adds exactly that entry |
| `Grouping.InsertByTitleSorted` | sample-lesson-viewer.php:124-126 | inserting into a title-sorted list keeps it sorted |
| `Grouping.SortByTitle` | sample-lesson-viewer.php:123-126 | the result is in non-decreasing `strcasecmp` order of course title and is a permutation of the input (same keys, each with its group) |
| `Grouping.PermutationKeepsDistinctKeys` | sample-lesson-viewer.php:124-126 | `uasort` keeps keys: reordering entries whose keys are distinct leaves them distinct |
| `Grouping.GetSampleLessons` | sample-lesson-viewer.php:70-129 | without LearnDash the result is empty; otherwise it is sorted by title, holds exactly the entries of `Grouped`, and lists each course once |
| `Shortcode.CourseIdList` | sample-lesson-viewer.php:221 | one 64-bit id per comma-separated piece of the attribute |
| `Shortcode.CourseIdListOfDecimals` | sample-lesson-viewer.php:221 | a comma-separated list of integers is read back as exactly those integers |
| `Shortcode.KeepKeys` | sample-lesson-viewer.php:222 | `array_intersect_key` keeps exactly the entries whose key is listed, in their original order |
| `Shortcode.FilterByCourses` | sample-lesson-viewer.php:219-223 | an empty `course_id` leaves the entries unchanged; otherwise exactly the entries whose key is among the listed ids are kept, in the existing order |
| `Shortcode.SubsequenceKeepsSorted` | sample-lesson-viewer.php:219-223 | filtering a title-sorted listing keeps it sorted (the order of the id list plays no part) |
| `Shortcode.SubsequenceKeepsDistinctKeys` | sample-lesson-viewer.php:219-223 | filtering keeps each course at most once |
| `Shortcode.DisplaySampleLessons` | sample-lesson-viewer.php:196-227 | without LearnDash, the fixed error paragraph; otherwise the "No sample lessons found" paragraph iff no entry passes the filter, and else a non-empty sorted listing of exactly the entries that pass it, each course once, with `columns` as its `intval`; with the default attributes, every course in 3 columns |
## Left out

- WordPress plumbing has no logic and is not modelled. This covers hook and
  shortcode registration, style registration and enqueueing, the inline CSS,
  and the admin notice that `slv_check_learndash_active` registers.
- Host lookups are inputs, not calls: `WP_Query`, `get_post_meta`,
  `get_the_title`, `get_permalink`, `get_the_excerpt` and
  `get_the_post_thumbnail_url`.
  - The query's title-ascending order is taken as given in the input sequence.
  - `wp_reset_postdata` is a host side effect.
  - A `get_permalink` that fails is modelled as a string.
- The HTML of a non-empty listing is not modelled. This covers the `ob_start`
  template, `esc_url`/`esc_html`/`wp_kses_post` and the `show_*` flags, which
  only affect markup. The two fixed paragraphs are modelled with their English
  text; translation by `esc_html__` is not modelled.
- `orderby` and `order` are parsed but unused. The model gives them no effect.
- `assets/js/sample-lesson-viewer.js` is browser event glue and is not part of
  this model.
- `Php.StringToInt` reads only whitespace, a sign and digits. Strings in
  exponent or decimal-point form take PHP's float path: `"1e3"` gives 1000 in
  PHP and 1 here. Float and object meta values are not modelled either.
- `Php.StringToIntSaturates` and `Php.StringToIntSaturatesNegative` read every
  out-of-range digit string as the nearest 64-bit bound. PHP converts such a
  string through a double, and a string too long for a finite double (about
  309 digits or more) reads as 0 there. Where PHP reads 0, the model reads a
  bound. A lesson whose course setting or `course_id` meta is such a string is
  dropped by PHP at its truthiness test, but the model lists it under
  PHP_INT_MAX (PHP_INT_MIN for a minus sign). A `course_id` filter piece of
  that form matches nothing in PHP, but in the model it matches a course keyed
  by that bound.
- `Php.StrCaseCmp` compares titles as sequences of Unicode code points. PHP
  compares UTF-8 bytes and returns byte differences (before 8.2) or -1/0/1
  (from 8.2). For a non-ASCII title the model's value differs from PHP's:
  `("é", "z")` gives 0xE9 - 0x7A here and 0xC3 - 0x7A in PHP, and `("é", "")`
  gives 1 here and 2 in PHP. The sign agrees for all UTF-8 text, and only the
  sign reaches the sort.
- `Grouping.SortByTitle` does not state the order of entries whose titles
  compare equal. PHP 7's `uasort` is not stable; the model's insertion sort
  keeps encounter order, which matches PHP 8.
- `Grouping.GetSampleLessons` inherits the same unstated tie order.
- `Shortcode.DisplaySampleLessons` does not state the markup of a non-empty
  listing. It states only which entries are shown, in what order, and the
  `columns` value.
- `Lessons.IsSampleLesson` assumes `learndash_is_sample` answers a boolean.
  `Lessons.LessonCourseId` assumes `learndash_get_course_id` answers an integer.
- Integers are those of a 64-bit PHP build.
