/** Properties of the poll loop that relate several runs. */
module PollerProperties {
  import opened Results
  import opened StoryItem
  import opened Poller

  /** `row` is one a run from `table` over `idents` may append: a polled id
      that was not stored, with the time its fetched item reports. */
  ghost predicate NewRow(table: seq<Row>, fetch: Fetch, idents: seq<int>, row: Row) {
    && row.id in idents
    && row.id !in Ids(table)
    && FetchStory(fetch, row.id).Success?
    && row.time == FetchStory(fetch, row.id).value.time
  }

  /** Every row a run appends is a polled id that was not stored before,
      with the submission time its fetched item reports. */
  lemma {:induction false} RunNewRows(table: seq<Row>, fetch: Fetch, idents: seq<int>)
    ensures forall i :: |table| <= i < |Run(table, fetch, idents).table| ==>
      NewRow(table, fetch, idents, Run(table, fetch, idents).table[i])
    decreases |idents|
  {
    if idents != [] {
      var ident := idents[0];
      var step := Register(table, fetch, ident);
      var next := if step.Success? then step.value else table;
      RunCons(table, fetch, ident, idents[1..]);
      assert idents == [ident] + idents[1..];
      var r := Run(table, fetch, idents);
      assert r.table == Run(next, fetch, idents[1..]).table;
      RunNewRows(next, fetch, idents[1..]);
      assert Ids(table) <= Ids(next) by {
        assert forall x :: x in table ==> x in next;
      }
      forall i | |table| <= i < |r.table|
        ensures NewRow(table, fetch, idents, r.table[i])
      {
        if i < |next| {
          assert next == table + [Row(ident, FetchStory(fetch, ident).value.time)];
        } else {
          assert NewRow(next, fetch, idents[1..], r.table[i]);
          var j :| 0 <= j < |idents[1..]| && idents[1..][j] == r.table[i].id;
          assert idents[j + 1] == r.table[i].id;
        }
      }
    }
  }

  /** Every logged error belongs to a polled id that was not stored and
      whose fetch failed with exactly that error. */
  lemma {:induction false} RunErrors(table: seq<Row>, fetch: Fetch, idents: seq<int>)
    ensures forall e :: e in Run(table, fetch, idents).errors ==>
      && e.0 in idents
      && e.0 !in Ids(table)
      && FetchStory(fetch, e.0) == Failure(e.1)
    decreases |idents|
  {
    if idents != [] {
      var ident := idents[0];
      var step := Register(table, fetch, ident);
      var next := if step.Success? then step.value else table;
      RunErrors(next, fetch, idents[1..]);
      assert forall id :: id in idents[1..] ==> id in idents;
      assert Ids(table) <= Ids(next) by {
        assert forall x :: x in table ==> x in next;
      }
    }
  }

  /** One step of the loop. */
  lemma RunCons(table: seq<Row>, fetch: Fetch, ident: int, rest: seq<int>)
    ensures Register(table, fetch, ident).Success? ==>
      Run(table, fetch, [ident] + rest) == Run(Register(table, fetch, ident).value, fetch, rest)
    ensures Register(table, fetch, ident).Failure? ==>
      Run(table, fetch, [ident] + rest)
        == Report(Run(table, fetch, rest).table,
                  [(ident, Register(table, fetch, ident).error)] + Run(table, fetch, rest).errors)
  {
    assert ([ident] + rest)[0] == ident;
    assert ([ident] + rest)[1..] == rest;
  }

  /** Polling `a + b` ends with the table that polling `a` and then
      polling `b` against the resulting table ends with. */
  lemma {:induction false} RunAppendTable(table: seq<Row>, fetch: Fetch, a: seq<int>, b: seq<int>)
    ensures Run(table, fetch, a + b).table == Run(Run(table, fetch, a).table, fetch, b).table
    decreases |a|
  {
    if a == [] {
      assert a + b == b;
    } else {
      var x := a[0];
      assert a == [x] + a[1..];
      assert a + b == [x] + (a[1..] + b);
      RunCons(table, fetch, x, a[1..] + b);
      RunCons(table, fetch, x, a[1..]);
      var next := if Register(table, fetch, x).Success? then Register(table, fetch, x).value else table;
      RunAppendTable(next, fetch, a[1..], b);
    }
  }

  /** Polling `a + b` logs what polling `a` logs, followed by what polling
      `b` against the resulting table logs: ids are handled one by one, in
      order, and a failure does not stop the ones after it. */
  lemma {:induction false} RunAppendErrors(table: seq<Row>, fetch: Fetch, a: seq<int>, b: seq<int>)
    ensures Run(table, fetch, a + b).errors
      == Run(table, fetch, a).errors + Run(Run(table, fetch, a).table, fetch, b).errors
    decreases |a|, 1
  {
    if a == [] {
      assert a + b == b;
    } else if Register(table, fetch, a[0]).Success? {
      RunAppendErrorsStored(table, fetch, a, b);
    } else {
      RunAppendErrorsSkipped(table, fetch, a, b);
    }
  }

  lemma {:induction false} RunAppendErrorsStored(table: seq<Row>, fetch: Fetch, a: seq<int>, b: seq<int>)
    requires a != [] && Register(table, fetch, a[0]).Success?
    ensures Run(table, fetch, a + b).errors
      == Run(table, fetch, a).errors + Run(Run(table, fetch, a).table, fetch, b).errors
    decreases |a|, 0
  {
    var x := a[0];
    assert a == [x] + a[1..];
    assert a + b == [x] + (a[1..] + b);
    RunCons(table, fetch, x, a[1..] + b);
    RunCons(table, fetch, x, a[1..]);
    RunAppendErrors(Register(table, fetch, x).value, fetch, a[1..], b);
  }

  lemma {:induction false} RunAppendErrorsSkipped(table: seq<Row>, fetch: Fetch, a: seq<int>, b: seq<int>)
    requires a != [] && Register(table, fetch, a[0]).Failure?
    ensures Run(table, fetch, a + b).errors
      == Run(table, fetch, a).errors + Run(Run(table, fetch, a).table, fetch, b).errors
    decreases |a|, 0
  {
    var x := a[0];
    assert a == [x] + a[1..];
    assert a + b == [x] + (a[1..] + b);
    RunCons(table, fetch, x, a[1..] + b);
    RunCons(table, fetch, x, a[1..]);
    RunAppendErrors(table, fetch, a[1..], b);
    var logged := [(x, Register(table, fetch, x).error)];
    var restA := Run(table, fetch, a[1..]);
    var restB := Run(restA.table, fetch, b);
    calc {
      Run(table, fetch, a + b).errors;
      logged + Run(table, fetch, a[1..] + b).errors;
      logged + (restA.errors + restB.errors);
      { SeqAssoc(logged, restA.errors, restB.errors); }
      (logged + restA.errors) + restB.errors;
      Run(table, fetch, a).errors + restB.errors;
    }
  }

  /** Associativity of `+`, as a lemma so that the step using it is taken
      apart from the facts about `Run` in scope there. */
  lemma SeqAssoc<T>(a: seq<T>, b: seq<T>, c: seq<T>)
    ensures a + (b + c) == (a + b) + c
  {
  }

  /** An id that is not stored and cannot be fetched is logged with its
      error, and the rest of the list is processed as if it were absent. */
  lemma RunSkipsFailure(table: seq<Row>, fetch: Fetch, ident: int, rest: seq<int>)
    requires ident !in Ids(table)
    requires FetchStory(fetch, ident).Failure?
    ensures Run(table, fetch, [ident] + rest).table == Run(table, fetch, rest).table
    ensures Run(table, fetch, [ident] + rest).errors
      == [(ident, FetchStory(fetch, ident).error)] + Run(table, fetch, rest).errors
  {
    assert ([ident] + rest)[1..] == rest;
  }

  /** When every polled id is already stored or cannot be fetched, a run
      leaves the table exactly as it was. */
  lemma {:induction false} RunStable(table: seq<Row>, fetch: Fetch, idents: seq<int>)
    requires forall id :: id in idents ==> id in Ids(table) || FetchStory(fetch, id).Failure?
    ensures Run(table, fetch, idents).table == table
    decreases |idents|
  {
    if idents != [] {
      assert idents[0] in idents;
      assert forall id :: id in idents[1..] ==> id in idents;
      RunStable(table, fetch, idents[1..]);
    }
  }

  /** Polling the same list again, when the items may now answer
      differently (`f2` rather than `f1`): the second poll stores only ids
      that were polled, not stored before, and failed the first time; and
      when every item fetchable now was fetchable then, it stores nothing. */
  lemma Repoll(table: seq<Row>, f1: Fetch, f2: Fetch, idents: seq<int>)
    ensures forall i :: |Run(table, f1, idents).table| <= i
                        < |Run(Run(table, f1, idents).table, f2, idents).table| ==>
      var id := Run(Run(table, f1, idents).table, f2, idents).table[i].id;
      id in idents && id !in Ids(table) && FetchStory(f1, id).Failure?
    ensures (forall id :: id in idents && FetchStory(f2, id).Success? ==> FetchStory(f1, id).Success?) ==>
      Run(Run(table, f1, idents).table, f2, idents).table == Run(table, f1, idents).table
  {
    var first := Run(table, f1, idents).table;
    RunNewRows(first, f2, idents);
    if forall id :: id in idents && FetchStory(f2, id).Success? ==> FetchStory(f1, id).Success? {
      RunStable(first, f2, idents);
    }
  }

  /** Polling the same list twice, with every item answering as before,
      stores nothing the first poll did not. */
  lemma RunIdempotent(table: seq<Row>, fetch: Fetch, idents: seq<int>)
    ensures Run(Run(table, fetch, idents).table, fetch, idents).table == Run(table, fetch, idents).table
  {
    Repoll(table, fetch, fetch, idents);
  }

  /** An item object that describes a story, fetched for that story's id,
      yields the story. */
  lemma FetchStoryEncoded(fetch: Fetch, story: Story)
    requires fetch(story.ident) == Some(Encode(story))
    requires MinTimestamp <= story.time <= MaxTimestamp
    ensures FetchStory(fetch, story.ident) == Success(story)
  {
    DecodeEncode(story);
  }

  /** Every item is fetchable; item `id` was submitted at second `1000 + id`. */
  function ExampleFetch(id: int): Option<Response> {
    Some(map["time" := Int(1000 + id)])
  }

  lemma ExampleFetchStory(id: int)
    requires MinTimestamp <= 1000 + id <= MaxTimestamp
    ensures FetchStory(ExampleFetch, id) == Success(Story(id, 1000 + id, Ints([]), Null, Null))
  {
    DecodeDefaults(id, 1000 + id);
  }

  /** Polling a single id. */
  lemma RunOne(table: seq<Row>, fetch: Fetch, ident: int)
    ensures Run(table, fetch, [ident]).table
      == if Register(table, fetch, ident).Success? then Register(table, fetch, ident).value else table
  {
    RunCons(table, fetch, ident, []);
    assert [ident] + [] == [ident];
  }

  /** Polling the id `ident` against `table`, where it is not stored and
      the example fetch succeeds, appends its row. */
  lemma ExampleStoresNew(table: seq<Row>, ident: int)
    requires ident !in Ids(table)
    requires MinTimestamp <= 1000 + ident <= MaxTimestamp
    ensures Run(table, ExampleFetch, [ident]).table == table + [Row(ident, 1000 + ident)]
  {
    ExampleFetchStory(ident);
    RunOne(table, ExampleFetch, ident);
  }

  /** Polling `[101, 102]` on an empty table stores both. */
  lemma PollExampleFirst()
    ensures Run([], ExampleFetch, [101, 102]).table == [Row(101, 1101), Row(102, 1102)]
  {
    PollExampleFirstFrom([]);
  }

  lemma PollExampleFirstFrom(empty: seq<Row>)
    requires empty == []
    ensures Run(empty, ExampleFetch, [101, 102]).table == [Row(101, 1101), Row(102, 1102)]
  {
    var one := [Row(101, 1101)];
    assert 101 !in Ids(empty);
    ExampleStoresNew(empty, 101);
    assert empty + [Row(101, 1101)] == one;
    assert Register(empty, ExampleFetch, 101) == Success(one);
    RunCons(empty, ExampleFetch, 101, [102]);
    assert [101] + [102] == [101, 102];
    assert 102 !in Ids(one) by {
      assert forall x :: x in one ==> x.id == 101;
    }
    ExampleStoresNew(one, 102);
  }

  /** A later poll of `[101, 103]` stores only 103: 101 is already there. */
  lemma PollExampleSecond()
    ensures Run([Row(101, 1101), Row(102, 1102)], ExampleFetch, [101, 103]).table
      == [Row(101, 1101), Row(102, 1102), Row(103, 1103)]
  {
    PollExampleSecondFrom([Row(101, 1101), Row(102, 1102)]);
  }

  lemma PollExampleSecondFrom(first: seq<Row>)
    requires first == [Row(101, 1101), Row(102, 1102)]
    ensures Run(first, ExampleFetch, [101, 103]).table == first + [Row(103, 1103)]
  {
    assert 101 in Ids(first) by {
      assert first[0] in first;
    }
    assert Register(first, ExampleFetch, 101) == Success(first);
    RunCons(first, ExampleFetch, 101, [103]);
    assert [101] + [103] == [101, 103];
    assert 103 !in Ids(first) by {
      assert forall x :: x in first ==> x.id < 103;
    }
    ExampleStoresNew(first, 103);
  }
}
