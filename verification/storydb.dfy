/** The story store of `storydb/storydb.py` as an abstract state machine.

    The store is three relational tables that share the database-generated
    `index` column:
      story(index, id)                          -- the story's content-source id
      story_submission_time(index, time)        -- submission time, Unix seconds
      story_processing_status(index, processed) -- whether it has been posted
    Each table is a sequence of rows; SQL tables are unordered, so contracts
    speak of membership and multisets rather than positions.  Every method of
    `StoryRepository` is a pure transition (`Db -> Db`) or a query. */
module StoryDb {
  import opened Results

  /** One row of any of the three tables, keyed by `index`. */
  datatype Row<V> = Row(index: int, value: V)

  /** `story`: the row's value is the story id. */
  type StoryTable = seq<Row<int>>
  /** `story_submission_time`: the row's value is the submission time in seconds. */
  type TimeTable = seq<Row<int>>
  /** `story_processing_status`: the row's value is the `processed` flag. */
  type StatusTable = seq<Row<bool>>

  datatype Db = Db(story: StoryTable, times: TimeTable, status: StatusTable)

  /** Errors the database raises back to the caller. */
  datatype DbError =
    | UniqueViolation(id: int)       // a second `story` row with the same id
    | UndefinedColumn(column: string) // a statement naming a column no table has

  function EmptyDb(): Db {
    Db([], [], [])
  }

  /** The set of `index` values a table holds. */
  function Indices<V(==)>(t: seq<Row<V>>): set<int> {
    set x | x in t :: x.index
  }

  ghost predicate DistinctIndices<V>(t: seq<Row<V>>) {
    forall i, j :: 0 <= i < j < |t| ==> t[i].index != t[j].index
  }

  ghost predicate DistinctIds(story: StoryTable) {
    forall i, j :: 0 <= i < j < |story| ==> story[i].value != story[j].value
  }

  /** The invariant of the store: the three tables are in lockstep (the same
      set of indices, each index at most once per table) and a story id is
      stored at most once. */
  ghost predicate Valid(db: Db) {
    && Indices(db.times) == Indices(db.story)
    && Indices(db.status) == Indices(db.story)
    && DistinctIndices(db.story)
    && DistinctIndices(db.times)
    && DistinctIndices(db.status)
    && DistinctIds(db.story)
  }

  /** The status row at index `k` belongs to story `id` when the `story`
      table links `k` to `id`. */
  ghost predicate BelongsTo(db: Db, k: int, id: int) {
    Row(k, id) in db.story
  }

  /** The story at index `k` is pending for `cutoff`: a submission time at
      or before `cutoff` and an unprocessed status row are both stored at `k`. */
  ghost predicate IsPendingAt(db: Db, k: int, cutoff: int) {
    && (exists x :: x in db.times && x.index == k && x.value <= cutoff)
    && Row(k, false) in db.status
  }

  /** `m` is the largest index of the table. */
  ghost predicate IsMax<V>(t: seq<Row<V>>, m: int) {
    m in Indices(t) && forall x :: x in t ==> x.index <= m
  }

  // ---------------------------------------------------------------------
  // has_story

  /** `select * from story where id = %(id)s` */
  function SelectById(story: StoryTable, id: int): (r: StoryTable)
    ensures forall x :: x in r <==> x in story && x.value == id
    ensures |r| <= |story|
  {
    if story == [] then []
    else (if story[0].value == id then [story[0]] else []) + SelectById(story[1..], id)
  }

  /** `has_story`: the lookup by id returns a first row. */
  function HasStory(db: Db, id: int): (r: bool)
    ensures r <==> exists x :: x in db.story && x.value == id
  {
    var rows := SelectById(db.story, id);
    assert rows != [] ==> rows[0] in rows;
    |rows| > 0
  }

  // ---------------------------------------------------------------------
  // insert_story

  /** `insert_story(id, time)`.  The serial generator of the `index` column
      is not part of this model: the index it would return is the parameter
      `k`, which is not yet used by the `story` table.  The `story.id` column
      is unique, so a second insertion of an id fails and changes nothing. */
  function InsertStory(db: Db, id: int, time: int, k: int): (r: Result<Db, DbError>)
    requires k !in Indices(db.story)
    ensures r.Failure? <==> HasStory(db, id)
    ensures r.Failure? ==> r.error == UniqueViolation(id)
    ensures r.Success? ==>
      && multiset(r.value.story) == multiset(db.story) + multiset{Row(k, id)}
      && multiset(r.value.times) == multiset(db.times) + multiset{Row(k, time)}
      && multiset(r.value.status) == multiset(db.status) + multiset{Row(k, false)}
  {
    if HasStory(db, id) then Failure(UniqueViolation(id))
    else
      Success(Db(db.story + [Row(k, id)],
                 db.times + [Row(k, time)],
                 db.status + [Row(k, false)]))
  }

  // ---------------------------------------------------------------------
  // mark_story

  /** `update story_processing_status set processed = p where index in keys` */
  function SetProcessed(status: StatusTable, keys: set<int>, processed: bool): (r: StatusTable)
    ensures |r| == |status|
    ensures forall i :: 0 <= i < |status| ==>
      && r[i].index == status[i].index
      && r[i].value == (if status[i].index in keys then processed else status[i].value)
  {
    if status == [] then []
    else
      var head := if status[0].index in keys then Row(status[0].index, processed) else status[0];
      [head] + SetProcessed(status[1..], keys, processed)
  }

  /** `mark_story(id, processed)`.  The status table has no id column, so the
      rows to update are found through the indices that `story` links to `id`
      (the source's `where id = %(id)s` on that table is recorded in the
      README findings).  Only `processed` flags change. */
  function MarkStory(db: Db, id: int, processed: bool): (r: Db)
    ensures r.story == db.story && r.times == db.times
    ensures |r.status| == |db.status|
    ensures forall i :: 0 <= i < |db.status| ==> r.status[i].index == db.status[i].index
    ensures forall i :: 0 <= i < |db.status| ==>
      r.status[i].value == (if BelongsTo(db, db.status[i].index, id) then processed else db.status[i].value)
    ensures !HasStory(db, id) ==> r == db
  {
    var keys := Indices(SelectById(db.story, id));
    assert forall k :: k in keys <==> BelongsTo(db, k, id) by {
      forall k ensures k in keys <==> BelongsTo(db, k, id) {
        if BelongsTo(db, k, id) {
          assert Row(k, id) in SelectById(db.story, id);
        }
      }
    }
    var status := SetProcessed(db.status, keys, processed);
    assert !HasStory(db, id) ==> status == db.status by {
      if !HasStory(db, id) {
        assert forall i :: 0 <= i < |status| ==> status[i] == db.status[i];
      }
    }
    Db(db.story, db.times, status)
  }

  // ---------------------------------------------------------------------
  // delete_stale_stories

  /** `select max(index) from story`; `None` is SQL's NULL on an empty table. */
  function MaxIndex<V(==)>(t: seq<Row<V>>): (r: Option<int>)
    ensures r.None? <==> t == []
    ensures r.Some? ==> IsMax(t, r.value)
  {
    if t == [] then None
    else
      match MaxIndex(t[1..])
      case None => Some(t[0].index)
      case Some(m) => Some(if t[0].index < m then m else t[0].index)
  }

  /** `delete from <table> where index <= threshold` */
  function DeleteUpTo<V(==,!new)>(t: seq<Row<V>>, threshold: int): (r: seq<Row<V>>)
    ensures forall x :: x in r <==> x in t && x.index > threshold
    ensures forall x :: multiset(r)[x] == if x.index > threshold then multiset(t)[x] else 0
  {
    if t == [] then []
    else
      assert t == [t[0]] + t[1..];
      assert multiset(t) == multiset([t[0]]) + multiset(t[1..]);
      (if t[0].index <= threshold then [] else [t[0]]) + DeleteUpTo(t[1..], threshold)
  }

  /** The three `delete ... where index <= threshold` statements. */
  function DeleteThrough(db: Db, threshold: int): (r: Db)
    ensures forall x :: x in r.story <==> x in db.story && x.index > threshold
    ensures forall x :: x in r.times <==> x in db.times && x.index > threshold
    ensures forall x :: x in r.status <==> x in db.status && x.index > threshold
    ensures forall x :: multiset(r.story)[x] == if x.index > threshold then multiset(db.story)[x] else 0
    ensures forall x :: multiset(r.times)[x] == if x.index > threshold then multiset(db.times)[x] else 0
    ensures forall x :: multiset(r.status)[x] == if x.index > threshold then multiset(db.status)[x] else 0
  {
    Db(DeleteUpTo(db.story, threshold),
       DeleteUpTo(db.times, threshold),
       DeleteUpTo(db.status, threshold))
  }

  /** The threshold `delete_stale_stories(numkept)` deletes through, if
      any.  Python's `not highest_index` holds both for NULL (an empty table)
      and for a largest index of 0; both return before deleting. */
  function StaleThreshold(story: StoryTable, numkept: int): (r: Option<int>)
    ensures r.None? <==> story == [] || IsMax(story, 0)
    ensures forall m :: IsMax(story, m) && m != 0 ==> r == Some(m - numkept)
  {
    match MaxIndex(story)
    case None => None
    case Some(highest) => if highest == 0 then None else Some(highest - numkept)
  }

  /** `delete_stale_stories(numkept)`: every row, in every table, whose
      index is at most `highest - numkept` is deleted, where `highest` is the
      largest index of `story`. */
  function DeleteStaleStories(db: Db, numkept: int): (r: Db)
    ensures db.story == [] || IsMax(db.story, 0) ==> r == db
    ensures forall m :: IsMax(db.story, m) && m != 0 ==>
      && (forall x :: x in r.story <==> x in db.story && x.index > m - numkept)
      && (forall x :: x in r.times <==> x in db.times && x.index > m - numkept)
      && (forall x :: x in r.status <==> x in db.status && x.index > m - numkept)
    ensures forall m, x :: IsMax(db.story, m) && m != 0 ==>
      multiset(r.story)[x] == if x.index > m - numkept then multiset(db.story)[x] else 0
    ensures forall m, x :: IsMax(db.story, m) && m != 0 ==>
      multiset(r.times)[x] == if x.index > m - numkept then multiset(db.times)[x] else 0
    ensures forall m, x :: IsMax(db.story, m) && m != 0 ==>
      multiset(r.status)[x] == if x.index > m - numkept then multiset(db.status)[x] else 0
  {
    match StaleThreshold(db.story, numkept)
    case None => db
    case Some(threshold) => DeleteThrough(db, threshold)
  }

  // ---------------------------------------------------------------------
  // get_pending_stories

  /** Number of submission-time rows at index `k` no later than `cutoff`. */
  function CountOldEnough(times: TimeTable, k: int, cutoff: int): (r: nat)
    ensures r > 0 <==> exists x :: x in times && x.index == k && x.value <= cutoff
  {
    if times == [] then 0
    else
      assert times == [times[0]] + times[1..];
      (if times[0].index == k && times[0].value <= cutoff then 1 else 0)
        + CountOldEnough(times[1..], k, cutoff)
  }

  /** Number of unprocessed status rows at index `k`. */
  function CountUnprocessed(status: StatusTable, k: int): (r: nat)
    ensures r > 0 <==> Row(k, false) in status
  {
    if status == [] then 0
    else
      assert status == [status[0]] + status[1..];
      (if status[0] == Row(k, false) then 1 else 0) + CountUnprocessed(status[1..], k)
  }

  lemma PositiveProduct(a: nat, b: nat)
    ensures a * b > 0 <==> a > 0 && b > 0
  {
    if a > 0 && b > 0 {
      assert a * b >= b by {
        assert a * b == (a - 1) * b + b;
      }
    }
  }

  /** The join of `story`, `story_submission_time` and
      `story_processing_status` on `index`, filtered by age and flag, one
      result row per matching triple. */
  function PendingJoin(story: StoryTable, db: Db, cutoff: int): (r: seq<int>)
    ensures forall id :: id in r <==>
      exists x :: x in story && x.value == id && IsPendingAt(db, x.index, cutoff)
  {
    if story == [] then []
    else
      assert story == [story[0]] + story[1..];
      var n := CountOldEnough(db.times, story[0].index, cutoff);
      var m := CountUnprocessed(db.status, story[0].index);
      PositiveProduct(n, m);
      var copies := seq(n * m, _ => story[0].value);
      assert forall id :: id in copies <==> n * m > 0 && id == story[0].value by {
        if n * m > 0 {
          assert copies[0] == story[0].value;
        }
      }
      copies + PendingJoin(story[1..], db, cutoff)
  }

  /** `get_pending_stories(age)` at wall-clock time `now` (both in seconds):
      the ids of stories that are unprocessed and were submitted at least
      `age` seconds ago.  The submission time is read from
      `story_submission_time` through the index (the source names a
      `story.time` column instead; see the README findings). */
  function GetPendingStories(db: Db, age: int, now: int): (r: seq<int>)
    ensures forall id :: id in r <==>
      exists x :: x in db.story && x.value == id && IsPendingAt(db, x.index, now - age)
  {
    PendingJoin(db.story, db, now - age)
  }
}
