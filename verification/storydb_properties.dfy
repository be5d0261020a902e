/** Invariants and cross-operation properties of the story store. */
module StoryDbProperties {
  import opened Results
  import opened StoryDb

  // ---------------------------------------------------------------------
  // Helpers about index sets

  lemma IndicesAppend<V>(t: seq<Row<V>>, x: Row<V>)
    ensures Indices(t + [x]) == Indices(t) + {x.index}
  {
    assert forall y :: y in t + [x] <==> y in t || y == x;
  }

  /** Two tables whose rows carry the same indices position by position have
      the same index set and the same distinctness. */
  lemma SameIndexColumn<V>(a: seq<Row<V>>, b: seq<Row<V>>)
    requires |a| == |b|
    requires forall i :: 0 <= i < |a| ==> a[i].index == b[i].index
    ensures Indices(a) == Indices(b)
    ensures DistinctIndices(a) <==> DistinctIndices(b)
  {
    forall k | k in Indices(a) ensures k in Indices(b) {
      var x :| x in a && x.index == k;
      var i :| 0 <= i < |a| && a[i] == x;
      assert b[i] in b;
    }
    forall k | k in Indices(b) ensures k in Indices(a) {
      var x :| x in b && x.index == k;
      var i :| 0 <= i < |b| && b[i] == x;
      assert a[i] in a;
    }
  }

  lemma {:induction false} DeleteUpToKeepsDistinctIndices<V(!new)>(t: seq<Row<V>>, threshold: int)
    requires DistinctIndices(t)
    ensures DistinctIndices(DeleteUpTo(t, threshold))
  {
    if t != [] {
      var rest := DeleteUpTo(t[1..], threshold);
      DeleteUpToKeepsDistinctIndices(t[1..], threshold);
      forall x | x in rest ensures x.index != t[0].index {
        var j :| 0 <= j < |t[1..]| && t[1..][j] == x;
        assert t[j + 1] == x;
      }
      var head: seq<Row<V>> := if t[0].index <= threshold then [] else [t[0]];
      assert DeleteUpTo(t, threshold) == head + rest;
      forall i, j | 0 <= i < j < |head + rest|
        ensures (head + rest)[i].index != (head + rest)[j].index
      {
        if i < |head| {
          assert (head + rest)[j] in rest;
        }
      }
    }
  }

  lemma {:induction false} DeleteUpToKeepsDistinctIds(t: StoryTable, threshold: int)
    requires DistinctIds(t)
    ensures DistinctIds(DeleteUpTo(t, threshold))
  {
    if t != [] {
      var rest := DeleteUpTo(t[1..], threshold);
      DeleteUpToKeepsDistinctIds(t[1..], threshold);
      forall x | x in rest ensures x.value != t[0].value {
        var j :| 0 <= j < |t[1..]| && t[1..][j] == x;
        assert t[j + 1] == x;
      }
      var head: StoryTable := if t[0].index <= threshold then [] else [t[0]];
      assert DeleteUpTo(t, threshold) == head + rest;
      forall i, j | 0 <= i < j < |head + rest|
        ensures (head + rest)[i].value != (head + rest)[j].value
      {
        if i < |head| {
          assert (head + rest)[j] in rest;
        }
      }
    }
  }

  /** A table with distinct indices has as many rows as indices. */
  lemma {:induction false} DistinctIndicesCard<V>(t: seq<Row<V>>)
    requires DistinctIndices(t)
    ensures |Indices(t)| == |t|
  {
    if t != [] {
      DistinctIndicesCard(t[1..]);
      assert Indices(t) == {t[0].index} + Indices(t[1..]) by {
        assert t == [t[0]] + t[1..];
      }
      forall x | x in t[1..] ensures x.index != t[0].index {
        var j :| 0 <= j < |t[1..]| && t[1..][j] == x;
        assert t[j + 1] == x;
      }
    }
  }

  /** The integers in `(lo, hi]`. */
  function Window(lo: int, hi: int): (w: set<int>)
    ensures forall i :: i in w <==> lo < i <= hi
    ensures lo <= hi ==> |w| == hi - lo
    decreases hi - lo
  {
    if hi <= lo then {} else Window(lo, hi - 1) + {hi}
  }

  lemma SubsetCard(a: set<int>, b: set<int>)
    requires a <= b
    ensures |a| <= |b|
  {
    assert b == a + (b - a);
  }

  // ---------------------------------------------------------------------
  // insert_story

  /** After `insert_story(id, t)`, `has_story` answers yes for `id` and
      for every id it answered yes before, and for nothing else. */
  lemma InsertThenHasStory(db: Db, id: int, time: int, k: int, other: int)
    requires k !in Indices(db.story)
    requires InsertStory(db, id, time, k).Success?
    ensures HasStory(InsertStory(db, id, time, k).value, other) <==> HasStory(db, other) || other == id
  {
    var r := InsertStory(db, id, time, k).value;
    assert r.story == db.story + [Row(k, id)];
    assert Row(k, id) in r.story;
  }

  /** `insert_story` keeps the three tables in lockstep and ids unique. */
  lemma InsertPreservesValid(db: Db, id: int, time: int, k: int)
    requires Valid(db)
    requires k !in Indices(db.story)
    requires InsertStory(db, id, time, k).Success?
    ensures Valid(InsertStory(db, id, time, k).value)
    ensures Indices(InsertStory(db, id, time, k).value.story) == Indices(db.story) + {k}
  {
    var r := InsertStory(db, id, time, k).value;
    assert r.story == db.story + [Row(k, id)];
    assert r.times == db.times + [Row(k, time)];
    assert r.status == db.status + [Row(k, false)];
    IndicesAppend(db.story, Row(k, id));
    IndicesAppend(db.times, Row(k, time));
    IndicesAppend(db.status, Row(k, false));
    forall i | 0 <= i < |db.story| ensures db.story[i].index != k && db.story[i].value != id {
      assert db.story[i] in db.story;
    }
    forall i | 0 <= i < |db.times| ensures db.times[i].index != k {
      assert db.times[i] in db.times;
    }
    forall i | 0 <= i < |db.status| ensures db.status[i].index != k {
      assert db.status[i] in db.status;
    }
  }

  /** A freshly inserted story is pending exactly when its submission time
      is at least `age` seconds before `now`. */
  lemma InsertThenPending(db: Db, id: int, time: int, k: int, age: int, now: int)
    requires Valid(db)
    requires k !in Indices(db.story)
    requires InsertStory(db, id, time, k).Success?
    ensures id in GetPendingStories(InsertStory(db, id, time, k).value, age, now) <==> time <= now - age
  {
    var r := InsertStory(db, id, time, k).value;
    assert r.story == db.story + [Row(k, id)];
    assert r.times == db.times + [Row(k, time)];
    assert r.status == db.status + [Row(k, false)];
    if time <= now - age {
      assert Row(k, id) in r.story && Row(k, time) in r.times && Row(k, false) in r.status;
    }
    if id in GetPendingStories(r, age, now) {
      var x :| x in r.story && x.value == id && IsPendingAt(r, x.index, now - age);
      assert x == Row(k, id);
      var y :| y in r.times && y.index == k && y.value <= now - age;
      assert y !in db.times;
    }
  }

  // ---------------------------------------------------------------------
  // mark_story

  /** `mark_story` changes only flags, so it keeps the lockstep invariant. */
  lemma MarkPreservesValid(db: Db, id: int, processed: bool)
    requires Valid(db)
    ensures Valid(MarkStory(db, id, processed))
  {
    SameIndexColumn(db.status, MarkStory(db, id, processed).status);
  }

  /** Once `mark_story(id)` has run, `id` is no longer pending at any age. */
  lemma MarkThenNotPending(db: Db, id: int, age: int, now: int)
    ensures id !in GetPendingStories(MarkStory(db, id, true), age, now)
  {
    var r := MarkStory(db, id, true);
    forall x | x in r.story && x.value == id ensures Row(x.index, false) !in r.status {
      forall i | 0 <= i < |r.status| ensures r.status[i] != Row(x.index, false) {
        if r.status[i].index == x.index {
          assert BelongsTo(db, db.status[i].index, id);
        }
      }
    }
  }

  /** In a valid store, an index that `story` links to `other` does not
      belong to any different id. */
  lemma IndexBelongsToOneId(db: Db, x: Row<int>, id: int)
    requires Valid(db)
    requires x in db.story && x.value != id
    ensures !BelongsTo(db, x.index, id)
  {
    var i :| 0 <= i < |db.story| && db.story[i] == x;
    forall j | 0 <= j < |db.story| ensures db.story[j] != Row(x.index, id) {
      if j < i {
        assert db.story[j].index != db.story[i].index;
      } else if j > i {
        assert db.story[i].index != db.story[j].index;
      }
    }
  }

  /** Marking `id` leaves the unprocessed status rows of every index that
      does not belong to `id` as they were. */
  lemma MarkKeepsIndex(db: Db, id: int, processed: bool, k: int)
    requires !BelongsTo(db, k, id)
    ensures Row(k, false) in MarkStory(db, id, processed).status <==> Row(k, false) in db.status
  {
    var r := MarkStory(db, id, processed);
    if Row(k, false) in r.status {
      var i :| 0 <= i < |r.status| && r.status[i] == Row(k, false);
      assert db.status[i] == Row(k, false);
    }
    if Row(k, false) in db.status {
      var i :| 0 <= i < |db.status| && db.status[i] == Row(k, false);
      assert r.status[i] == Row(k, false);
    }
  }

  /** Marking one story leaves the pending status of every other story as it
      was: in a valid store an index belongs to one id only. */
  lemma MarkKeepsOthers(db: Db, id: int, processed: bool, other: int, age: int, now: int)
    requires Valid(db)
    requires other != id
    ensures other in GetPendingStories(MarkStory(db, id, processed), age, now)
        <==> other in GetPendingStories(db, age, now)
  {
    var r := MarkStory(db, id, processed);
    forall x | x in db.story && x.value == other
      ensures IsPendingAt(r, x.index, now - age) <==> IsPendingAt(db, x.index, now - age)
    {
      IndexBelongsToOneId(db, x, id);
      MarkKeepsIndex(db, id, processed, x.index);
    }
  }

  // ---------------------------------------------------------------------
  // delete_stale_stories

  lemma DeleteUpToIndices<V(!new)>(t: seq<Row<V>>, threshold: int)
    ensures forall k :: k in Indices(DeleteUpTo(t, threshold)) <==> k in Indices(t) && k > threshold
  {
    var r := DeleteUpTo(t, threshold);
    forall k | k in Indices(t) && k > threshold ensures k in Indices(r) {
      var x :| x in t && x.index == k;
      assert x in r;
    }
  }

  /** Deleting every row at or below `threshold` from each of the three
      tables keeps the store valid. */
  lemma DeleteThroughPreservesValid(db: Db, threshold: int)
    requires Valid(db)
    ensures Valid(DeleteThrough(db, threshold))
  {
    DeleteUpToKeepsDistinctIndices(db.story, threshold);
    DeleteUpToKeepsDistinctIndices(db.times, threshold);
    DeleteUpToKeepsDistinctIndices(db.status, threshold);
    DeleteUpToKeepsDistinctIds(db.story, threshold);
    DeleteUpToIndices(db.story, threshold);
    DeleteUpToIndices(db.times, threshold);
    DeleteUpToIndices(db.status, threshold);
  }

  /** `delete_stale_stories` deletes the same indices from all three tables,
      so it keeps the lockstep invariant. */
  lemma DeletePreservesValid(db: Db, numkept: int)
    requires Valid(db)
    ensures Valid(DeleteStaleStories(db, numkept))
  {
    var threshold := StaleThreshold(db.story, numkept);
    if threshold.Some? {
      DeleteThroughPreservesValid(db, threshold.value);
    }
  }

  /** Deleting through `th` from a table whose largest index is `m` keeps
      only indices in `(th, m]`, at most `m - th` stories. */
  lemma DeleteThroughWindow(db: Db, th: int, m: int)
    requires DistinctIndices(db.story)
    requires IsMax(db.story, m)
    ensures forall x :: x in DeleteThrough(db, th).story ==> th < x.index <= m
    ensures |DeleteThrough(db, th).story| <= if m - th < 0 then 0 else m - th
    ensures forall k :: k <= th ==>
      && k !in Indices(DeleteThrough(db, th).story)
      && k !in Indices(DeleteThrough(db, th).times)
      && k !in Indices(DeleteThrough(db, th).status)
  {
    var r := DeleteThrough(db, th);
    DeleteUpToIndices(db.story, th);
    DeleteUpToIndices(db.times, th);
    DeleteUpToIndices(db.status, th);
    DeleteUpToKeepsDistinctIndices(db.story, th);
    DistinctIndicesCard(r.story);
    if m - th < 0 {
      assert Indices(r.story) == {};
    } else {
      var w := Window(th, m);
      assert Indices(r.story) <= w;
      SubsetCard(Indices(r.story), w);
    }
  }

  lemma StaleIsThrough(db: Db, numkept: int, th: int)
    requires StaleThreshold(db.story, numkept) == Some(th)
    ensures DeleteStaleStories(db, numkept) == DeleteThrough(db, th)
  {
  }

  /** With largest index `m` (not 0) and distinct indices, what
      `delete_stale_stories(n)` keeps is exactly the window `(m - n, m]`:
      at most `n` stories survive, and every older index is gone from all
      three tables. */
  lemma DeleteKeepsTopWindow(db: Db, numkept: int, m: int)
    requires DistinctIndices(db.story)
    requires IsMax(db.story, m) && m != 0
    ensures forall x :: x in DeleteStaleStories(db, numkept).story ==> m - numkept < x.index <= m
    ensures forall x :: x in db.story && x.index > m - numkept ==> x in DeleteStaleStories(db, numkept).story
    ensures |DeleteStaleStories(db, numkept).story| <= if numkept < 0 then 0 else numkept
    ensures forall k :: k <= m - numkept ==>
      && k !in Indices(DeleteStaleStories(db, numkept).story)
      && k !in Indices(DeleteStaleStories(db, numkept).times)
      && k !in Indices(DeleteStaleStories(db, numkept).status)
  {
    var th := m - numkept;
    assert StaleThreshold(db.story, numkept) == Some(th);
    StaleIsThrough(db, numkept, th);
    DeleteThroughWindow(db, th, m);
    assert m - th == numkept;
  }
}
