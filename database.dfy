/**
 * The SQLite layer of utils/database.py as an in-memory store: the `users`,
 * `resume_analysis` and `job_recommendations` tables created by `init_db`, and
 * the helpers that insert into, update and query them.
 *
 * Every table has `id INTEGER PRIMARY KEY AUTOINCREMENT`. SQLite then gives a
 * new row an id one more than the largest id the table has ever handed out,
 * which `sqlite_sequence` holds; here that is a `next…Id` field per table.
 * Rows are kept in insertion order, which is therefore id order. The
 * `datetime.utcnow().isoformat()` timestamp is a parameter `now`.
 */
module Database {
  import opened Wrappers

  /** A SQLite REAL (`match_percentage`), stored and returned but never inspected. */
  type Float(==)

  /** A row of `users`. `resume_path` is the one nullable column. */
  datatype UserRow = UserRow(
    id: nat, fullName: string, email: string, passwordHash: string,
    registrationDate: string, resumePath: Option<string>)

  /** The columns of `resume_analysis` after `id` and `user_id`. */
  datatype Analysis = Analysis(
    extractedText: string, analysisScores: Option<string>, strengths: Option<string>,
    weaknesses: Option<string>, identifiedSkills: Option<string>,
    recommendedSkills: Option<string>, analysisTimestamp: string)

  /** The columns of `job_recommendations` after `id` and `user_id`. */
  datatype Job = Job(
    jobTitle: string, companyName: string, location: string, jobDescription: string,
    jobUrl: string, matchPercentage: Float, scrapingDate: string)

  /** A row of a table keyed by `id` and owned through `user_id`. */
  datatype Row<T> = Row(id: nat, userId: int, data: T)

  // ---------------------------------------------------------------------------
  // Queries over a table, independent of the class
  // ---------------------------------------------------------------------------

  ghost predicate IdsIncreasing<T>(rows: seq<Row<T>>) {
    forall i, j | 0 <= i < j < |rows| :: rows[i].id < rows[j].id
  }

  ghost predicate IdsDecreasing<T>(rows: seq<Row<T>>) {
    forall i, j | 0 <= i < j < |rows| :: rows[i].id > rows[j].id
  }

  /** `SELECT * … WHERE user_id = ? ORDER BY id DESC` over rows kept in id order. */
  function NewestFirst<T>(rows: seq<Row<T>>, userId: int): (r: seq<Row<T>>)
    ensures forall i | 0 <= i < |r| :: r[i] in rows && r[i].userId == userId
    ensures forall i | 0 <= i < |rows| && rows[i].userId == userId :: rows[i] in r
    ensures |r| <= |rows|
  {
    if rows == [] then []
    else
      var last := rows[|rows| - 1];
      var older := NewestFirst(rows[..|rows| - 1], userId);
      assert forall i | 0 <= i < |rows| - 1 :: rows[i] == rows[..|rows| - 1][i];
      if last.userId == userId then [last] + older else older
  }

  /** When the table is in id order, the rows come out in strictly descending id order. */
  lemma {:induction false} NewestFirstDescending<T>(rows: seq<Row<T>>, userId: int)
    requires IdsIncreasing(rows)
    ensures IdsDecreasing(NewestFirst(rows, userId))
  {
    if rows != [] {
      var last := rows[|rows| - 1];
      var init := rows[..|rows| - 1];
      assert IdsIncreasing(init) && forall k | 0 <= k < |init| :: init[k].id < last.id;
      NewestFirstDescending(init, userId);
      if last.userId == userId {
        NewestFirstBelow(init, userId, last.id);
        DescendingCons(last, NewestFirst(init, userId));
      }
    }
  }

  /** A row newer than every row of a newest-first list can go in front of it. */
  lemma DescendingCons<T>(x: Row<T>, r: seq<Row<T>>)
    requires IdsDecreasing(r) && forall k | 0 <= k < |r| :: r[k].id < x.id
    ensures IdsDecreasing([x] + r)
  {
    var xr := [x] + r;
    forall i, j | 0 <= i < j < |xr| ensures xr[i].id > xr[j].id {
      assert xr[j] == r[j - 1];
      if i > 0 {
        assert xr[i] == r[i - 1];
      }
    }
  }

  /** A bound on every id of a table bounds every id of a user's list. */
  lemma NewestFirstBelow<T>(rows: seq<Row<T>>, userId: int, bound: int)
    requires forall k | 0 <= k < |rows| :: rows[k].id < bound
    ensures forall k | 0 <= k < |NewestFirst(rows, userId)| :: NewestFirst(rows, userId)[k].id < bound
  {
    var r := NewestFirst(rows, userId);
    forall k | 0 <= k < |r| ensures r[k].id < bound {
      var m :| 0 <= m < |rows| && rows[m] == r[k];
    }
  }

  /** `… ORDER BY id DESC LIMIT 1`, then `fetchone()`. */
  function Latest<T>(rows: seq<Row<T>>, userId: int): (r: Option<Row<T>>)
    ensures r.None? <==> forall x | x in rows :: x.userId != userId
    ensures r.Some? ==> r.value in rows && r.value.userId == userId
  {
    var newest := NewestFirst(rows, userId);
    if newest == [] then None else Some(newest[0])
  }

  /** In an id-ordered table, the latest row of a user has the highest id among that user's rows. */
  lemma LatestHasHighestId<T>(rows: seq<Row<T>>, userId: int, x: Row<T>)
    requires IdsIncreasing(rows)
    requires x in rows && x.userId == userId
    ensures Latest(rows, userId).Some?
    ensures x.id <= Latest(rows, userId).value.id
  {
    NewestFirstDescending(rows, userId);
    var newest := NewestFirst(rows, userId);
    var k :| 0 <= k < |newest| && newest[k] == x;
    assert k == 0 || newest[0].id > newest[k].id;
  }

  /** Appending a row puts it first in its owner's list and changes no other user's list. */
  lemma NewestFirstAfterAppend<T>(rows: seq<Row<T>>, row: Row<T>, userId: int)
    ensures NewestFirst(rows + [row], userId)
         == if row.userId == userId then [row] + NewestFirst(rows, userId) else NewestFirst(rows, userId)
  {
    assert (rows + [row])[..|rows + [row]| - 1] == rows;
  }

  /** The row just appended is its owner's latest. */
  lemma LatestAfterAppend<T>(rows: seq<Row<T>>, row: Row<T>)
    ensures Latest(rows + [row], row.userId) == Some(row)
  {
    NewestFirstAfterAppend(rows, row, row.userId);
  }

  /** A table whose ids are positive, increase in insertion order and are below the id of its next insert. */
  ghost predicate RowsValid<T>(rows: seq<Row<T>>, next: nat) {
    && 0 < next
    && IdsIncreasing(rows)
    && forall i | 0 <= i < |rows| :: 0 < rows[i].id < next
  }

  /** Appending a row under the table's next id keeps the table valid, with the following id next. */
  lemma AppendKeepsIds<T>(rows: seq<Row<T>>, row: Row<T>)
    requires RowsValid(rows, row.id)
    ensures RowsValid(rows + [row], row.id + 1)
  {
    var r := rows + [row];
    forall i, j | 0 <= i < j < |r| ensures r[i].id < r[j].id {
      assert r[i] == rows[i];
    }
    forall i | 0 <= i < |r| ensures 0 < r[i].id < row.id + 1 {
      if i < |rows| {
        assert r[i] == rows[i];
      }
    }
  }

  /** `SELECT * FROM users WHERE email = ?`, then `fetchone()`. */
  function UserWithEmail(users: seq<UserRow>, email: string): (r: Option<UserRow>)
    ensures r.None? <==> forall u | u in users :: u.email != email
    ensures r.Some? ==> r.value in users && r.value.email == email
  {
    if users == [] then None
    else if users[0].email == email then Some(users[0])
    else UserWithEmail(users[1..], email)
  }

  /** `UPDATE users SET resume_path = ? WHERE id = ?` on a list of rows. */
  function SetResumePath(users: seq<UserRow>, id: int, path: string): (r: seq<UserRow>)
    ensures |r| == |users|
    ensures forall i | 0 <= i < |users| ::
              r[i] == if users[i].id == id then users[i].(resumePath := Some(path)) else users[i]
  {
    seq(|users|, i requires 0 <= i < |users| =>
      if users[i].id == id then users[i].(resumePath := Some(path)) else users[i])
  }

  /** Updating an id that no row has leaves the table as it was. */
  lemma SetResumePathMissingId(users: seq<UserRow>, id: int, path: string)
    requires forall i | 0 <= i < |users| :: users[i].id != id
    ensures SetResumePath(users, id, path) == users
  {
  }

  /** Setting the resume path keeps every id and email, and so every key and uniqueness property. */
  lemma SetResumePathKeepsKeys(users: seq<UserRow>, id: int, path: string)
    ensures forall i | 0 <= i < |users| ::
              SetResumePath(users, id, path)[i].id == users[i].id
              && SetResumePath(users, id, path)[i].email == users[i].email
  {
  }

  /** The `users` table: positive ids increasing in insertion order, below the next id, and unique emails. */
  ghost predicate UsersValid(users: seq<UserRow>, next: nat) {
    && 0 < next
    && (forall i, j | 0 <= i < j < |users| :: users[i].id < users[j].id)
    && (forall i | 0 <= i < |users| :: 0 < users[i].id < next)
    && (forall i, j | 0 <= i < j < |users| :: users[i].email != users[j].email)
  }

  class Database {
    var users: seq<UserRow>
    var analyses: seq<Row<Analysis>>
    var recommendations: seq<Row<Job>>
    /** The id each table gives its next insert: one more than its `sqlite_sequence` entry. */
    var nextUserId: nat
    var nextAnalysisId: nat
    var nextRecommendationId: nat

    /**
     * Next ids are positive, row ids are positive, increase in insertion order and are below the table's
     * next id; `users.email` is UNIQUE.
     */
    ghost predicate Valid()
      reads this
    {
      && UsersValid(users, nextUserId)
      && RowsValid(analyses, nextAnalysisId)
      && RowsValid(recommendations, nextRecommendationId)
    }

    /** `init_db` on a fresh database file: three empty tables. */
    constructor ()
      ensures Valid()
      ensures users == [] && analyses == [] && recommendations == []
      ensures nextUserId == 1 && nextAnalysisId == 1 && nextRecommendationId == 1
    {
      users, analyses, recommendations := [], [], [];
      nextUserId, nextAnalysisId, nextRecommendationId := 1, 1, 1;
    }

    /**
     * `create_user(full_name, email, password_hash)`. `ok` is false where the
     * UNIQUE constraint raises IntegrityError; the failed insert is rolled back
     * and nothing changes. Otherwise one row is appended, with a fresh id above
     * every id used so far and a null `resume_path`.
     */
    method CreateUser(fullName: string, email: string, passwordHash: string, now: string) returns (ok: bool)
      requires Valid()
      modifies this
      ensures Valid()
      ensures ok <==> forall u | u in old(users) :: u.email != email
      ensures ok ==> && users == old(users) + [UserRow(old(nextUserId), fullName, email, passwordHash, now, None)]
                     && nextUserId == old(nextUserId) + 1
      ensures !ok ==> users == old(users) && nextUserId == old(nextUserId)
      ensures analyses == old(analyses) && recommendations == old(recommendations)
      ensures nextAnalysisId == old(nextAnalysisId) && nextRecommendationId == old(nextRecommendationId)
    {
      if UserWithEmail(users, email).Some? {
        return false;
      }
      users := users + [UserRow(nextUserId, fullName, email, passwordHash, now, None)];
      nextUserId := nextUserId + 1;
      ok := true;
    }

    /** `get_user_by_email(email)`: the row with exactly that email, or `None`. */
    function GetUserByEmail(email: string): (r: Option<UserRow>)
      reads this
      ensures r.None? <==> forall u | u in users :: u.email != email
      ensures r.Some? ==> r.value in users && r.value.email == email
    {
      UserWithEmail(users, email)
    }

    /** Because email is UNIQUE, the row found is the only row with that email. */
    lemma GetUserByEmailIsUnique(email: string, u: UserRow)
      requires Valid()
      requires u in users && u.email == email
      ensures GetUserByEmail(email) == Some(u)
    {
      var r := GetUserByEmail(email).value;
      var i :| 0 <= i < |users| && users[i] == r;
      var j :| 0 <= j < |users| && users[j] == u;
      assert i == j;
    }

    /** `update_user_resume_path(user_id, resume_path)`: only the row with that id changes, and only its `resume_path`. */
    method UpdateUserResumePath(userId: int, resumePath: string)
      requires Valid()
      modifies this
      ensures Valid()
      ensures users == SetResumePath(old(users), userId, resumePath)
      ensures analyses == old(analyses) && recommendations == old(recommendations)
      ensures nextUserId == old(nextUserId) && nextAnalysisId == old(nextAnalysisId)
      ensures nextRecommendationId == old(nextRecommendationId)
    {
      SetResumePathKeepsKeys(users, userId, resumePath);
      users := SetResumePath(users, userId, resumePath);
    }

    /** `save_resume_analysis(user_id, extracted_text, …)`: appends one row with a fresh id. */
    method SaveResumeAnalysis(
      userId: int, extractedText: string, analysisScores: Option<string>, strengths: Option<string>,
      weaknesses: Option<string>, identifiedSkills: Option<string>, recommendedSkills: Option<string>,
      now: string)
      requires Valid()
      modifies this
      ensures Valid()
      ensures analyses == old(analyses) + [Row(old(nextAnalysisId), userId,
                Analysis(extractedText, analysisScores, strengths, weaknesses, identifiedSkills,
                         recommendedSkills, now))]
      ensures nextAnalysisId == old(nextAnalysisId) + 1
      ensures users == old(users) && recommendations == old(recommendations)
      ensures nextUserId == old(nextUserId) && nextRecommendationId == old(nextRecommendationId)
      ensures GetLatestResumeAnalysis(userId) == Some(analyses[|analyses| - 1])
    {
      var row := Row(nextAnalysisId, userId,
        Analysis(extractedText, analysisScores, strengths, weaknesses, identifiedSkills,
                 recommendedSkills, now));
      AppendKeepsIds(analyses, row);
      LatestAfterAppend(analyses, row);
      analyses := analyses + [row];
      nextAnalysisId := nextAnalysisId + 1;
    }

    /** `get_latest_resume_analysis(user_id)`: that user's row with the highest id, or `None`. */
    function GetLatestResumeAnalysis(userId: int): (r: Option<Row<Analysis>>)
      reads this
      ensures r.None? <==> forall x | x in analyses :: x.userId != userId
      ensures r.Some? ==> r.value in analyses && r.value.userId == userId
    {
      Latest(analyses, userId)
    }

    /** `save_job_recommendation(user_id, …)`: appends one row with a fresh id. */
    method SaveJobRecommendation(
      userId: int, jobTitle: string, companyName: string, location: string,
      jobDescription: string, jobUrl: string, matchPercentage: Float, now: string)
      requires Valid()
      modifies this
      ensures Valid()
      ensures recommendations == old(recommendations) + [Row(old(nextRecommendationId), userId,
                Job(jobTitle, companyName, location, jobDescription, jobUrl, matchPercentage, now))]
      ensures nextRecommendationId == old(nextRecommendationId) + 1
      ensures users == old(users) && analyses == old(analyses)
      ensures nextUserId == old(nextUserId) && nextAnalysisId == old(nextAnalysisId)
      ensures GetJobRecommendationsForUser(userId)
           == [recommendations[|recommendations| - 1]] + old(GetJobRecommendationsForUser(userId))
    {
      var row := Row(nextRecommendationId, userId,
        Job(jobTitle, companyName, location, jobDescription, jobUrl, matchPercentage, now));
      AppendKeepsIds(recommendations, row);
      NewestFirstAfterAppend(recommendations, row, userId);
      recommendations := recommendations + [row];
      nextRecommendationId := nextRecommendationId + 1;
    }

    /** `get_job_recommendations_for_user(user_id)`: exactly that user's rows, newest first. */
    function GetJobRecommendationsForUser(userId: int): (r: seq<Row<Job>>)
      reads this
      requires Valid()
      ensures forall i | 0 <= i < |r| :: r[i] in recommendations && r[i].userId == userId
      ensures forall i | 0 <= i < |recommendations| && recommendations[i].userId == userId ::
                recommendations[i] in r
      ensures IdsDecreasing(r)
    {
      NewestFirstDescending(recommendations, userId);
      NewestFirst(recommendations, userId)
    }
  }
}
