/**
 * The validation part of the grade handler: what it does with a decoded JSON
 * body before, and instead of, inserting a Grades row. No score is checked
 * against a bound and nothing is averaged.
 */
module Grading {
  import opened Optional
  import opened JsonValues
  import opened Schema

  /** The four keys the `scores` object must hold, in the order they are tested. */
  const ScoreKeys: seq<string> := ["language_score", "technical_score", "creativity_score", "teamwork_score"]

  /** What the handler does with a body. */
  datatype Step =
    | Invalid          // replies 'Invalid data provided'
    | Crash            // an exception escapes the handler: HTTP 500, nothing stored
    | Insert(row: GradeRow)

  /** Python's `body.get(key, default)`. */
  function Get(body: map<string, Json>, key: string, default: Json): Json {
    if key in body then body[key] else default
  }

  /**
   * `all(k in scores for k in keys)`, evaluated lazily: it stops at the first
   * key that is absent, and a TypeError from a test propagates (`None`).
   */
  function AllKeysIn(scores: Json, keys: seq<string>): (r: Option<bool>)
    ensures scores.JObject? ==> r == Some(forall k :: k in keys ==> k in scores.fields)
    ensures Contains(scores, "").Some? ==> r == Some(forall k :: k in keys ==> Contains(scores, k) == Some(true))
    ensures Contains(scores, "").None? && keys != [] ==> r.None?
    decreases |keys|
  {
    if keys == [] then Some(true)
    else match Contains(scores, keys[0])
      case None => None
      case Some(false) => Some(false)
      case Some(true) =>
        var r := AllKeysIn(scores, keys[1..]);
        assert forall k :: k in keys <==> k == keys[0] || k in keys[1..];
        r
  }

  /** The row `grade_assignment` inserts for the body, when it inserts one. */
  function GradeRowOf(assignmentId: Json, scores: map<string, Json>): GradeRow
    requires forall k :: k in ScoreKeys ==> k in scores
  {
    GradeRow(assignmentId, scores["language_score"], scores["technical_score"],
             scores["creativity_score"], scores["teamwork_score"])
  }

  /** All values of the row can be bound as statement parameters. */
  predicate RowBindable(row: GradeRow) {
    Bindable(row.assignmentId) && Bindable(row.languageScore) && Bindable(row.technicalScore)
    && Bindable(row.creativityScore) && Bindable(row.teamworkScore)
  }

  /**
   * The decision of `grade_assignment`: a falsy `assignment_id` or a missing
   * score key is rejected; `scores` that is not an object fails at the `in`
   * test (null, a bool, a number) or at indexing (a list, a string); a value
   * the database driver cannot bind fails at the insert; anything else is
   * inserted as given.
   */
  function Classify(body: map<string, Json>): Step {
    var assignmentId := Get(body, "assignment_id", JNull);
    var scores := Get(body, "scores", JObject(map[]));
    if !Truthy(assignmentId) then Invalid
    else match AllKeysIn(scores, ScoreKeys)
      case None => Crash
      case Some(false) => Invalid
      case Some(true) =>
        if !scores.JObject? then Crash
        else
          var row := GradeRowOf(assignmentId, scores.fields);
          if RowBindable(row) then Insert(row) else Crash
  }

  /**
   * Rejection happens exactly when `assignment_id` is missing or falsy, or
   * when `scores` supports `in` (an object, a list or a string) and one of
   * the four keys is not in it.
   */
  lemma ClassifyInvalidIff(body: map<string, Json>)
    ensures
      var scores := Get(body, "scores", JObject(map[]));
      Classify(body) == Invalid <==>
        (!Truthy(Get(body, "assignment_id", JNull))
         || (Contains(scores, "").Some? && exists k :: k in ScoreKeys && Contains(scores, k) == Some(false)))
  {
    var scores := Get(body, "scores", JObject(map[]));
    if Contains(scores, "").Some? && !(forall k :: k in ScoreKeys ==> Contains(scores, k) == Some(true)) {
      var k :| k in ScoreKeys && Contains(scores, k) != Some(true);
      assert Contains(scores, k) == Some(false);
    }
  }

  /**
   * A row is inserted exactly when `assignment_id` is truthy, `scores` is an
   * object holding all four keys and every value can be bound; the row then
   * carries those values unchanged, whatever their magnitude.
   */
  lemma ClassifyInsertIff(body: map<string, Json>)
    ensures Classify(body).Insert? <==>
      (var assignmentId := Get(body, "assignment_id", JNull);
       var scores := Get(body, "scores", JObject(map[]));
       Truthy(assignmentId) && scores.JObject?
       && (forall k :: k in ScoreKeys ==> k in scores.fields)
       && RowBindable(GradeRowOf(assignmentId, scores.fields)))
    ensures Classify(body).Insert? ==>
      var row := Classify(body).row;
      var scores := Get(body, "scores", JObject(map[])).fields;
      row.assignmentId == Get(body, "assignment_id", JNull)
      && row.languageScore == scores["language_score"]
      && row.technicalScore == scores["technical_score"]
      && row.creativityScore == scores["creativity_score"]
      && row.teamworkScore == scores["teamwork_score"]
  {
  }

  /**
   * A `scores` value of null, a bool or a number makes the handler fail rather
   * than reply, once `assignment_id` is truthy.
   */
  lemma ClassifyScalarScoresCrash(body: map<string, Json>)
    requires Truthy(Get(body, "assignment_id", JNull))
    requires "scores" in body && (body["scores"].JNull? || body["scores"].JBool? || body["scores"].JNum?)
    ensures Classify(body) == Crash
  {
  }

  /**
   * No rubric bound is enforced: a language score of 1000, far above the
   * rubric's 30, and a negative teamwork score are stored as given.
   */
  lemma NoScoreBounds()
    ensures
      var scores := map["language_score" := JNum(1000.0), "technical_score" := JNum(0.0),
                         "creativity_score" := JNum(0.0), "teamwork_score" := JNum(-5.0)];
      Classify(map["assignment_id" := JNum(1.0), "scores" := JObject(scores)])
        == Insert(GradeRow(JNum(1.0), JNum(1000.0), JNum(0.0), JNum(0.0), JNum(-5.0)))
  {
  }
}
