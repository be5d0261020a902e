/** Two statements of `storydb/storydb.py` as written, against the three
    tables their own insert statements populate:
      story(index, id), story_submission_time(index, time),
      story_processing_status(index, processed).
    `mark_story` filters `story_processing_status` by an `id` column, and
    `get_pending_stories` reads a `time` column of `story`; neither column is
    among those.  PostgreSQL rejects such a statement with an
    undefined-column error, which `psycopg2` raises to the caller.  The
    corrected operations (`StoryDb.MarkStory`, `StoryDb.GetPendingStories`)
    join through `index` instead; the lemmas below show where the two
    differ. */
module StoryDbAsWritten {
  import opened Results
  import opened StoryDb

  /** `mark_story` as written: `where id = %(id)s` on the status table. */
  function MarkStoryAsWritten(db: Db, id: int, processed: bool): (r: Result<Db, DbError>)
    ensures r.Failure?
  {
    Failure(UndefinedColumn("story_processing_status.id"))
  }

  /** `get_pending_stories` as written: `story.time <= now() - interval age`. */
  function GetPendingStoriesAsWritten(db: Db, age: int, now: int): (r: Result<seq<int>, DbError>)
    ensures r.Failure?
  {
    Failure(UndefinedColumn("story.time"))
  }

  /** The store after `insert_story(101, 0)` received index 1. */
  function OneStory(): Db {
    Db([Row(1, 101)], [Row(1, 0)], [Row(1, false)])
  }

  lemma OneStoryIsInserted()
    ensures InsertStory(EmptyDb(), 101, 0, 1) == Success(OneStory())
  {
    assert !HasStory(EmptyDb(), 101);
    assert [] + [Row(1, 101)] == [Row(1, 101)];
    assert [] + [Row(1, 0)] == [Row(1, 0)];
    assert [] + [Row(1, false)] == [Row(1, false)];
  }

  /** Story 101, submitted at second 0, is pending at second 0.  Marking it
      as written raises and leaves it pending; the corrected `mark_story`
      removes it from the pending list. */
  lemma MarkAsWrittenLeavesStoryPending()
    ensures MarkStoryAsWritten(OneStory(), 101, true).Failure?
    ensures GetPendingStories(OneStory(), 0, 0) == [101]
    ensures GetPendingStories(MarkStory(OneStory(), 101, true), 0, 0) == []
  {
    var db := OneStory();
    assert db.story == [Row(1, 101)];
    assert CountOldEnough(db.times, 1, 0) == 1;
    assert CountUnprocessed(db.status, 1) == 1;
    var marked := MarkStory(db, 101, true);
    assert marked.status == [Row(1, true)];
    assert CountUnprocessed(marked.status, 1) == 0;
  }

  /** For the same store, the query as written raises where the corrected
      query lists story 101. */
  lemma PendingAsWrittenFailsOnStoredStory()
    ensures GetPendingStoriesAsWritten(OneStory(), 0, 0).Failure?
    ensures GetPendingStories(OneStory(), 0, 0) == [101]
  {
    MarkAsWrittenLeavesStoryPending();
  }
}
