/** The poll loop of hackernewsbot.py: `run` folds
    `register_story_if_not_exists` over the polled id list against the
    single table `stories(id, time)`.

    The HTTP fetch of an item is the parameter `fetch`: for an id it yields
    the decoded item object, or `None` when the request or the JSON decoding
    failed.  The polled id list (`query_new_story_idents`) is the parameter
    `idents`. */
module Poller {
  import opened Results
  import opened StoryItem

  /** A row of `stories(id, time)`, `time` in Unix seconds. */
  datatype Row = Row(id: int, time: int)

  type Fetch = int -> Option<Response>

  /** Why one id could not be registered. */
  datatype Failure = FetchFailed | Undecodable(error: DecodeError)

  /** The outcome of one `run`: the table, and the (id, error) pairs that
      were logged and skipped, in polling order. */
  datatype Report = Report(table: seq<Row>, errors: seq<(int, Failure)>)

  function Ids(table: seq<Row>): set<int> {
    set r | r in table :: r.id
  }

  ghost predicate DistinctIds(table: seq<Row>) {
    forall i, j :: 0 <= i < j < |table| ==> table[i].id != table[j].id
  }

  /** `Story(ident)`: fetch the item and decode it. */
  function FetchStory(fetch: Fetch, ident: int): (r: Result<Story, Failure>)
    ensures r.Success? ==> r.value.ident == ident
    ensures fetch(ident).None? ==> r == Failure(FetchFailed)
    ensures fetch(ident).Some? ==>
      (r.Success? <==> Decode(ident, fetch(ident).value).Success?)
    ensures fetch(ident).Some? && r.Success? ==>
      r.value == Decode(ident, fetch(ident).value).value
    ensures fetch(ident).Some? && r.Failure? ==>
      r.error == Undecodable(Decode(ident, fetch(ident).value).error)
  {
    match fetch(ident)
    case None => Failure(FetchFailed)
    case Some(response) =>
      match Decode(ident, response)
      case Success(story) => Success(story)
      case Failure(e) => Failure(Undecodable(e))
  }

  /** `select * from stories where id = %s` */
  function SelectById(table: seq<Row>, ident: int): (r: seq<Row>)
    ensures forall x :: x in r <==> x in table && x.id == ident
  {
    if table == [] then []
    else (if table[0].id == ident then [table[0]] else []) + SelectById(table[1..], ident)
  }

  /** `register_story_if_not_exists`: an id already in the table is left
      alone; otherwise the story is fetched and one row `(id, time)` is
      appended.  A failed fetch raises, which here is a `Failure`. */
  function Register(table: seq<Row>, fetch: Fetch, ident: int): (r: Result<seq<Row>, Failure>)
    ensures ident in Ids(table) ==> r == Success(table)
    ensures ident !in Ids(table) ==> (r.Success? <==> FetchStory(fetch, ident).Success?)
    ensures ident !in Ids(table) && r.Success? ==>
      r.value == table + [Row(ident, FetchStory(fetch, ident).value.time)]
    ensures r.Failure? ==> r.error == FetchStory(fetch, ident).error
  {
    var rows := SelectById(table, ident);
    assert ident in Ids(table) ==> rows != [] by {
      if ident in Ids(table) {
        var x :| x in table && x.id == ident;
        assert x in rows;
      }
    }
    if |rows| > 0 then
      assert rows[0] in rows;
      Success(table)
    else
      match FetchStory(fetch, ident)
      case Success(story) => Success(table + [Row(story.ident, story.time)])
      case Failure(e) => Failure(e)
  }

  /** `run`: register every polled id in order; a failure for one id is
      logged and the loop goes on with the next id and the table as it was. */
  function Run(table: seq<Row>, fetch: Fetch, idents: seq<int>): (r: Report)
    ensures table <= r.table
    ensures forall id :: id in Ids(r.table) <==>
      id in Ids(table) || (id in idents && FetchStory(fetch, id).Success?)
    ensures DistinctIds(table) ==> DistinctIds(r.table)
    decreases |idents|
  {
    if idents == [] then Report(table, [])
    else
      var ident := idents[0];
      match Register(table, fetch, ident)
      case Success(next) =>
        assert Ids(next) == Ids(table) + (if ident in Ids(table) then {} else {ident}) by {
          if ident !in Ids(table) {
            assert forall x :: x in next <==> x in table || x == next[|table|];
          }
        }
        assert DistinctIds(table) ==> DistinctIds(next) by {
          if DistinctIds(table) && next != table {
            forall i | 0 <= i < |table| ensures table[i].id != ident {
              assert table[i] in table;
            }
          }
        }
        var rest := Run(next, fetch, idents[1..]);
        assert forall id :: id in idents <==> id == ident || id in idents[1..];
        Report(rest.table, rest.errors)
      case Failure(e) =>
        var rest := Run(table, fetch, idents[1..]);
        assert forall id :: id in idents <==> id == ident || id in idents[1..];
        Report(rest.table, [(ident, e)] + rest.errors)
  }
}
