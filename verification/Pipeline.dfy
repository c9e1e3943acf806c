/** The query pipeline (pipeline.cxx): queries are sent in batches, and their results
    come back as one ordered stream that has to be dealt out to the right queries. */
module Pipeline {
  import opened Common

  const QID_LIMIT := 0x7FFF_FFFF_FFFF_FFFF

  /** The end iterator of the query map. Iterators are the ids they point to. */
  const END := QID_LIMIT + 1

  /** A result remembers which query the server was answering. */
  datatype Result = Empty | Data(query: int, rows: nat) | Failure(query: int)

  /** The failure of a batch as a whole belongs to no query in particular. */
  const BATCH_FAILURE := Failure(0)

  /** Exactly what the server answered to this very query. */
  predicate Own(q: int, r: Result, answered: map<int, Result>) {
    q in answered && r == answered[q] && (r.Data? || r.Failure?) && r.query == q
  }

  /** The query was run alone and failed. */
  predicate FailedAlone(q: int, culprits: set<int>, answered: map<int, Result>) {
    q in culprits && q in answered && answered[q] == Failure(q)
  }

  /** What a query may be left with: the server's answer to it; or, if it failed when run
      alone and the error starts right behind it, the failure of its batch. */
  predicate Earned(q: int, r: Result, error: int, culprits: set<int>, answered: map<int, Result>) {
    Own(q, r, answered) || (r == BATCH_FAILURE && error == q + 1 && FailedAlone(q, culprits, answered))
  }

  /** No answer is ever given again or changed. */
  ghost predicate Grows(before: map<int, Result>, after: map<int, Result>) {
    forall k :: k in before ==> k in after && after[k] == before[k]
  }

  // ---------------------------------------------------------------------
  // The backend
  // ---------------------------------------------------------------------

  datatype Reply = DummyRow | DummyError | Answer(result: Result)

  function Ids(from: int, to: int): (ids: seq<int>)
  {
    seq(if from <= to then to - from else 0, i => from + i)
  }

  lemma IdsAreBetween(from: int, to: int)
    ensures forall k :: k in Ids(from, to) ==> from <= k < to
    ensures forall i, j :: 0 <= i < j < |Ids(from, to)| ==> Ids(from, to)[i] != Ids(from, to)[j]
    ensures from < to ==> Ids(from, to) != []
  {
  }

  /** Replies to a batch: one per statement in order, cut short after a failure. */
  ghost predicate Answers(replies: seq<Reply>, ids: seq<int>) {
    && |replies| <= |ids|
    && (forall i :: 0 <= i < |replies| ==>
          && replies[i].Answer? && (replies[i].result.Data? || replies[i].result.Failure?)
          && replies[i].result.query == ids[i])
    && (forall i :: 0 <= i < |replies| - 1 ==> replies[i].result.Data?)
    && (|replies| < |ids| ==> replies != [] && replies[|replies| - 1].result.Failure?)
  }

  /** A batch led by the dummy query may be rejected outright instead. */
  ghost predicate Responds(replies: seq<Reply>, ids: seq<int>, dummy: bool) {
    if dummy then
      replies == [DummyError] || (replies != [] && replies[0] == DummyRow && Answers(replies[1..], ids))
    else Answers(replies, ids)
  }

  /** The answers among the replies are on record. */
  ghost predicate Recorded(replies: seq<Reply>, answered: map<int, Result>) {
    forall i :: 0 <= i < |replies| && replies[i].Answer? ==>
      && replies[i].result != Empty
      && replies[i].result.query in answered && answered[replies[i].result.query] == replies[i].result
  }

  class Backend {
    /** The statements that fail when they are run alone. */
    const culprits: set<int>
    /** Whether a rejected batch always contains one of these. */
    const faithful: bool
    /** Replies to the current command that have not been fetched. */
    var stream: seq<Reply>
    // What the server has answered to each query it ran, in a batch or alone.
    ghost var Answered: map<int, Result>

    constructor (culprits: set<int>, faithful: bool)
      ensures this.culprits == culprits && this.faithful == faithful && stream == [] && Answered == map[]
    {
      this.culprits, this.faithful, stream, Answered := culprits, faithful, [], map[];
    }

    /** The next result of the current command, or nothing once it is done. */
    method GetResult() returns (r: Option<Reply>)
      modifies this`stream
      ensures old(stream) == [] ==> r == None && stream == []
      ensures old(stream) != [] ==> r == Some(old(stream)[0]) && stream == old(stream)[1..]
    {
      if stream == [] {
        return None;
      }
      r := Some(stream[0]);
      stream := stream[1..];
    }

    /** Sends a batch. Nothing is known of the outcome but the protocol. */
    method StartExec(ids: seq<int>, dummy: bool)
      requires stream == [] && ids != []
      requires forall i, j :: 0 <= i < j < |ids| ==> ids[i] != ids[j]
      requires forall i :: 0 <= i < |ids| ==> ids[i] !in Answered
      modifies this
      ensures Responds(stream, ids, dummy)
      ensures faithful && stream == [DummyError] ==> exists q :: q in ids && q in culprits
      ensures Recorded(stream, Answered) && Grows(old(Answered), Answered)
      ensures forall k :: k in Answered ==> k in old(Answered) || k in ids
      ensures stream == [DummyError] ==> Answered == old(Answered)
    {
      var rejected: bool := *;
      if dummy && rejected && (!faithful || exists q :: q in ids && q in culprits) {
        stream := [DummyError];
        return;
      }
      var answers := RunBatch(ids);
      stream := if dummy then [DummyRow] + answers else answers;
      assert stream != [] && stream[0] != DummyError;
    }

    /** Runs the statements of a batch in order, up to the first that fails. */
    method RunBatch(ids: seq<int>) returns (answers: seq<Reply>)
      requires forall i, j :: 0 <= i < j < |ids| ==> ids[i] != ids[j]
      requires forall i :: 0 <= i < |ids| ==> ids[i] !in Answered
      modifies this`Answered
      ensures Answers(answers, ids) && (ids != [] ==> answers != [])
      ensures Recorded(answers, Answered) && Grows(old(Answered), Answered)
      ensures forall k :: k in Answered ==> k in old(Answered) || k in ids
    {
      answers := [];
      var failed := false;
      while |answers| < |ids| && !failed
        invariant |answers| <= |ids|
        invariant forall i :: 0 <= i < |answers| ==>
                    && answers[i].Answer?
                    && (answers[i].result.Data? || (failed && i == |answers| - 1 && answers[i].result.Failure?))
                    && answers[i].result.query == ids[i]
        invariant failed ==> answers != [] && answers[|answers| - 1].result.Failure?
        invariant Recorded(answers, Answered) && Grows(old(Answered), Answered)
        invariant forall k :: k in Answered ==> k in old(Answered) || k in ids[..|answers|]
        decreases |ids| - |answers|
      {
        var ok: bool, rows: nat := *, *;
        var id := ids[|answers|];
        var result := if ok then Data(id, rows) else Failure(id);
        assert id !in Answered;
        Answered := Answered[id := result];
        answers := answers + [Answer(result)];
        failed := !ok;
      }
    }

    /** Runs one statement alone and waits for it; None is a failure. */
    method Exec(id: int) returns (r: Option<Result>)
      requires stream == [] && id !in Answered
      modifies this`Answered
      ensures r.Some? <==> id !in culprits
      ensures r.Some? ==> r.value.Data? && r.value.query == id
      ensures Answered == old(Answered)[id := if r.Some? then r.value else Failure(id)]
    {
      var rows: nat := *;
      r := if id in culprits then None else Some(Data(id, rows));
      Answered := Answered[id := if r.Some? then r.value else Failure(id)];
    }
  }

  // ---------------------------------------------------------------------
  // Iterators of the query map
  // ---------------------------------------------------------------------

  /** Incrementing an iterator: the least greater key, or the end. No key is
      greater than `last`. */
  function Next(keys: set<int>, it: int, last: int): (n: int)
    requires last < END
    requires forall k :: k in keys ==> k <= last
    ensures n == END || (n in keys && n > it)
    ensures forall k :: k in keys && k > it ==> n <= k && n != END
    decreases last - it
  {
    if it >= last then END
    else if it + 1 in keys then it + 1
    else Next(keys, it + 1, last)
  }

  function Interval(lo: int, hi: int): (s: set<int>)
    ensures forall k :: k in s <==> lo <= k < hi
    ensures |s| == if lo <= hi then hi - lo else 0
    decreases hi - lo
  {
    if lo >= hi then {} else Interval(lo, hi - 1) + {hi - 1}
  }

  lemma AnswersTail(replies: seq<Reply>, from: int, to: int, answered: map<int, Result>)
    requires from < to && replies != [] && Answers(replies, Ids(from, to)) && Recorded(replies, answered)
    ensures replies[0].Answer? && Own(from, replies[0].result, answered) && replies[0].result != Empty
    ensures |replies| == 1 || Answers(replies[1..], Ids(from + 1, to))
    ensures Recorded(replies[1..], answered)
    ensures from + 1 == to ==> |replies| == 1
  {
    var ids := Ids(from, to);
    assert ids[0] == from;
    assert ids[1..] == Ids(from + 1, to);
  }

  // ---------------------------------------------------------------------
  // The pipeline
  // ---------------------------------------------------------------------

  /** Of all queries, those with the given ids have come out, the rest are left. */
  ghost predicate Drained(all: set<int>, ids: seq<int>, results: seq<Result>, left: set<int>,
                          first: int, error: int, culprits: set<int>, answered: map<int, Result>)
  {
    && |ids| == |results| && left <= all
    && (forall i :: 0 <= i < |ids| ==> ids[i] in all && ids[i] < first && ids[i] < error)
    && (forall i :: 0 <= i < |ids| ==> Earned(ids[i], results[i], error, culprits, answered))
    && (forall i, k :: 0 <= i < |ids| && k in left ==> ids[i] < k)
    && (forall i, j :: 0 <= i < j < |ids| ==> ids[i] < ids[j])
    && (forall k :: k in all ==> k in left || k in ids)
  }

  lemma NothingDrained(all: set<int>, first: int, error: int, culprits: set<int>, answered: map<int, Result>)
    ensures Drained(all, [], [], all, first, error, culprits, answered)
  {
  }

  /** The next one out is behind those before it, and leaves them as they are. */
  lemma OneDrained(all: set<int>, ids: seq<int>, results: seq<Result>, left: set<int>,
                   first: int, error: int, culprits: set<int>, answered: map<int, Result>, q: int, result: Result,
                   nextFirst: int, nextError: int, nextAnswered: map<int, Result>)
    requires Drained(all, ids, results, left, first, error, culprits, answered) && Grows(answered, nextAnswered)
    requires q in left && forall k :: k in left ==> q <= k
    requires first <= nextFirst && nextError <= error && (nextError == error || first <= nextError)
    requires q < nextFirst && q < nextError && Earned(q, result, nextError, culprits, nextAnswered)
    ensures Drained(all, ids + [q], results + [result], left - {q}, nextFirst, nextError, culprits, nextAnswered)
  {
    StillEarned(ids, results, first, error, culprits, answered, nextError, nextAnswered);
    hide Earned;
  }

  /** Results stay earned while answers are added and the error moves in front of
      nothing that has come out. */
  lemma StillEarned(ids: seq<int>, results: seq<Result>, first: int, error: int, culprits: set<int>,
                    answered: map<int, Result>, nextError: int, nextAnswered: map<int, Result>)
    requires |ids| == |results| && Grows(answered, nextAnswered)
    requires forall i :: 0 <= i < |ids| ==> ids[i] < first && ids[i] < error
    requires forall i :: 0 <= i < |ids| ==> Earned(ids[i], results[i], error, culprits, answered)
    requires nextError == error || (first <= nextError <= error)
    ensures forall i :: 0 <= i < |ids| ==> Earned(ids[i], results[i], nextError, culprits, nextAnswered)
  {
  }

  lemma StillDrained(all: set<int>, ids: seq<int>, results: seq<Result>, left: set<int>,
                     first: int, error: int, culprits: set<int>, answered: map<int, Result>,
                     nextFirst: int, nextError: int, nextAnswered: map<int, Result>)
    requires Drained(all, ids, results, left, first, error, culprits, answered) && Grows(answered, nextAnswered)
    requires first <= nextFirst && nextError <= error && (nextError == error || first <= nextError)
    ensures Drained(all, ids, results, left, nextFirst, nextError, culprits, nextAnswered)
  {
    StillEarned(ids, results, first, error, culprits, answered, nextError, nextAnswered);
    hide Earned;
  }

  lemma AllDrained(all: set<int>, ids: seq<int>, results: seq<Result>, left: set<int>,
                   first: int, error: int, culprits: set<int>, answered: map<int, Result>)
    requires Drained(all, ids, results, left, first, error, culprits, answered)
    requires forall k :: k in left ==> k >= error
    ensures |ids| == |results|
    ensures forall i :: 0 <= i < |ids| ==> Earned(ids[i], results[i], error, culprits, answered)
    ensures forall i, j :: 0 <= i < j < |ids| ==> ids[i] < ids[j]
    ensures forall k :: k in ids <==> k in all && k < error
    ensures forall k :: k in left <==> k in all && k >= error
  {
  }

  datatype Retrieved =
    | UnknownQuery
    | Refused
    | Failed(query: int, failure: Result)
    | Got(query: int, result: Result)

  class Pipe {
    const backend: Backend
    var queries: map<int, Result>
    // The issued range: pending queries are those from first up to second.
    var first: int
    var second: int
    var retain: int
    var numWaiting: int
    var qId: int
    var dummyPending: bool
    // Queries from this one on are refused; QID_LIMIT while there is no error.
    var error: int

    ghost predicate Structure()
      reads this
    {
      && 0 <= qId < QID_LIMIT - 1 && 0 <= retain && 1 <= error <= QID_LIMIT
      && (forall k :: k in queries ==> 1 <= k <= qId)
      && (first == END || first in queries)
      && (second == END || second in queries)
    }

    /** An iterator as a bound on ids: the end comes right after the last id given out. */
    ghost function Rank(it: int): int
      reads this
    {
      if it == END then qId + 1 else it
    }

    /** What the backend still owes the pending queries. */
    ghost predicate Pending()
      reads this, backend
    {
      var ids := Ids(first, Rank(second));
      && Recorded(backend.stream, backend.Answered)
      && if dummyPending then
           && Responds(backend.stream, ids, true)
           && (backend.faithful && backend.stream == [DummyError] ==> exists q :: q in ids && q in backend.culprits)
           && (backend.stream == [DummyError] ==> NoneFrom(first))
         else backend.stream == [] || Answers(backend.stream, ids)
    }

    /** No query from this one on has been answered. */
    ghost predicate NoneFrom(q: int)
      reads backend`Answered
    {
      forall k :: k in backend.Answered ==> k < q
    }

    /** No error so far: the range is in order, everything from its start on is
        still in the map, the waiting queries are counted, and exactly the queries
        before it have results, each its own. */
    ghost predicate Dealt()
      reads this, backend`Answered
    {
      && first <= second
      && (forall k :: Rank(first) <= k <= qId ==> k in queries)
      && numWaiting == qId + 1 - Rank(second)
      && (forall k :: k in queries && k < first ==> Own(k, queries[k], backend.Answered))
      && (forall k :: k in queries && first <= k ==> queries[k] == Empty)
    }

    /** And the backend owes what the pending queries are waiting for. */
    ghost predicate Intact()
      reads this, backend
    {
      && Dealt() && NoneFrom(Rank(second))
      && if first == second then backend.stream == [] && !dummyPending else Pending()
    }

    /** After an error: nothing is pending, and queries before the error have their own
        results. Only the last of them may hold the failure of its batch instead: the
        one that failed when the batch was replayed. */
    ghost predicate Stopped()
      reads this, backend
    {
      && first == second && backend.stream == [] && !dummyPending
      && error <= Rank(first)
      && (forall k :: k in queries && k < error - 1 ==> Own(k, queries[k], backend.Answered))
      && (error - 1 in queries ==> Earned(error - 1, queries[error - 1], error, backend.culprits, backend.Answered))
      && (first == END ==> forall k :: k in queries ==> k < error)
    }

    ghost predicate Consistent()
      reads this, backend
    {
      Structure() && if error == QID_LIMIT then Intact() else Stopped()
    }

    ghost predicate Settled(q: int)
      requires q in queries
      reads this, backend`Answered
    {
      Earned(q, queries[q], error, backend.culprits, backend.Answered)
    }

    ghost predicate Valid()
      reads this, backend
    {
      Consistent() && backend.faithful
    }

    constructor (backend: Backend)
      requires backend.stream == []
      modifies backend`Answered
      ensures Consistent() && this.backend == backend && backend.Answered == map[]
      ensures queries == map[] && error == QID_LIMIT && retain == 0 && qId == 0 && !HavePending()
    {
      this.backend := backend;
      queries, first, second := map[], END, END;
      retain, numWaiting, qId, dummyPending, error := 0, 0, 0, false, QID_LIMIT;
      new;
      backend.Answered := map[];
    }

    /** Where the map has no gap, an increment goes to the next id. */
    lemma NextId(it: int)
      requires Structure() && it in queries
      requires it + 1 <= qId ==> it + 1 in queries
      ensures Next(queries.Keys, it, qId) == if it == qId then END else it + 1
    {
    }

    /** While there is no error, the range is in order and the waiting queries, from
        its end on, are exactly as many as counted. */
    lemma WaitingIsCounted()
      requires Valid() && error == QID_LIMIT
      ensures first <= second
      ensures numWaiting == |set k | k in queries && second <= k|
    {
      assert (set k | k in queries && second <= k) == Interval(Rank(second), qId + 1);
    }

    function HavePending(): bool
      reads this
    {
      second != first
    }

    method SetErrorAt(q: int)
      modifies this`error
      ensures error == if q < old(error) then q else old(error)
    {
      if q < error {
        error := q;
      }
    }

    /** Takes one result for the oldest pending query, or learns that no more are
        coming. Neither a result too many nor two for one query ever shows up. */
    method ObtainResult(expectNone: bool) returns (got: bool)
      requires if expectNone then backend.stream == [] else Consistent() && !dummyPending
      modifies this`queries, this`first, this`second, this`error, backend`stream
      ensures expectNone ==>
                queries == old(queries) && first == old(first) && second == old(second) && error == old(error)
      ensures !expectNone ==> Consistent()
      ensures queries.Keys == old(queries.Keys)
      ensures forall k :: k in queries && k < old(first) ==> queries[k] == old(queries[k])
      ensures got ==> second == old(second) && error == old(error) && old(first) < first
                      && |backend.stream| < |old(backend.stream)|
      ensures got ==> Rank(first) == old(Rank(first)) + 1
      ensures got ==> Answer(queries[old(first)]) == old(backend.stream)[0]
      ensures !got ==> backend.stream == [] && queries == old(queries) && first == old(first)
      ensures !got && !expectNone ==> first == second
      ensures !got && !expectNone ==> error == if old(HavePending()) then old(first) else old(error)
      ensures !got && !old(HavePending()) ==> second == old(second)
      ensures old(first) <= first && error <= old(error)
      ensures error == old(error) || old(first) <= error
      ensures error == QID_LIMIT ==> second == old(second)
      ensures !got ==> forall k :: k in queries && k < old(second) && k < error ==> expectNone || k < first
    {
      var r := backend.GetResult();
      if r == None {
        if HavePending() && !expectNone {
          SetErrorAt(first);
          second := first;
        }
        return false;
      }
      if !HavePending() {
        // The source throws here: more results than queries.
        assert false;
      }
      AnswersTail(old(backend.stream), first, Rank(second), backend.Answered);
      hide Answers, Own;
      TakeResult(r.value.result);
      got := true;
    }

    /** Gives the oldest pending query its result. */
    method TakeResult(res: Result)
      requires Structure() && Dealt() && first < second && Own(first, res, backend.Answered)
      modifies this`queries, this`first
      ensures Structure() && Dealt() && queries == old(queries)[old(first) := res]
      ensures Rank(first) == old(Rank(first)) + 1 && old(first) < first
    {
      hide Own;
      if queries[first] != Empty {
        // The source throws here: several results for one query.
        assert false;
      }
      NextId(first);
      ghost var keys := queries.Keys;
      queries := queries[first := res];
      assert queries.Keys == keys;
      first := Next(queries.Keys, first, qId);
    }

    /** Counts the steps between two iterators. */
    method Distance(from: int, to: int) returns (n: nat)
      requires Structure() && from <= to
      requires from == END || from in queries
      requires to == END || to in queries
      requires forall k :: Rank(from) <= k <= qId ==> k in queries
      ensures n == Rank(to) - Rank(from)
    {
      var it := from;
      n := 0;
      while it != to
        invariant from <= it <= to && (it == END || it in queries)
        invariant n == Rank(it) - Rank(from)
        decreases END - it
      {
        it := Next(queries.Keys, it, qId);
        n := n + 1;
      }
    }

    /** The query at the front failed: nothing after it will be run. */
    method StopAfterFirst()
      requires Structure() && error == QID_LIMIT && first in queries
      requires first + 1 <= qId ==> first + 1 in queries
      modifies this`first, this`second, this`error
      ensures first == second && (first == END || first in queries)
      ensures error == Rank(first) == old(first) + 1
    {
      NextId(first);
      var thud := first;
      first := Next(queries.Keys, first, qId);
      second := first;
      var q := first;
      SetErrorAt(if q == END then thud + 1 else q);
    }

    /** Runs the query at the front alone and steps past it. */
    method ReplayFirst() returns (ok: bool)
      requires Structure() && error == QID_LIMIT && backend.stream == [] && first in queries
      requires first + 1 <= qId ==> first + 1 in queries
      requires NoneFrom(first)
      modifies this`queries, this`first, this`second, this`error, this`numWaiting, backend`Answered
      ensures NoneFrom(Rank(first)) && Grows(old(backend.Answered), backend.Answered)
      ensures numWaiting == old(numWaiting) - 1
      ensures queries.Keys == old(queries.Keys) && Rank(first) == old(first) + 1
      ensures forall k :: k in queries && k != old(first) ==> queries[k] == old(queries[k])
      ensures first == END || first in queries
      ensures ok ==>
                && second == old(second) && error == old(error) && old(first) !in backend.culprits
                && queries[old(first)].Data? && Own(old(first), queries[old(first)], backend.Answered)
      ensures !ok ==>
                && queries == old(queries) && first == second && error == old(first) + 1
                && FailedAlone(old(first), backend.culprits, backend.Answered)
    {
      hide Next;
      numWaiting := numWaiting - 1;
      var r := backend.Exec(first);
      if r == None {
        StopAfterFirst();
        return false;
      }
      ghost var keys := queries.Keys;
      NextId(first);
      queries := queries[first := r.value];
      assert queries.Keys == keys;
      first := Next(queries.Keys, first, qId);
      ok := true;
    }

    /** Replays a rejected batch one query at a time, up to the first failure. */
    method Replay(stop: int) returns (allReplayed: bool)
      requires Structure() && error == QID_LIMIT && backend.stream == []
      requires first < stop && (stop == END || stop in queries)
      requires forall k :: Rank(first) <= k <= qId ==> k in queries
      requires forall k :: k in queries && first <= k < stop ==> queries[k] == BATCH_FAILURE
      requires numWaiting == qId + 1 - Rank(first) && NoneFrom(first)
      modifies this`queries, this`first, this`second, this`error, this`numWaiting, backend`Answered
      ensures queries.Keys == old(queries.Keys) && (first == END || first in queries)
      ensures Grows(old(backend.Answered), backend.Answered)
      ensures forall k :: k in queries && (k < old(first) || stop <= k) ==> queries[k] == old(queries[k])
      ensures allReplayed ==>
                && first == stop && second == old(second) && error == old(error)
                && forall k :: old(first) <= k < Rank(stop) ==> k !in backend.culprits
      ensures !allReplayed ==>
                && first == second && old(first) < error == Rank(first) <= Rank(stop)
                && queries[error - 1] == BATCH_FAILURE
                && FailedAlone(error - 1, backend.culprits, backend.Answered)
                && forall k :: old(first) <= k < error - 1 ==>
                     queries[k].Data? && Own(k, queries[k], backend.Answered) && k !in backend.culprits
    {
      hide Next, Consistent;
      ghost var start := first;
      var ok := true;
      while ok && first != stop
        invariant start <= first && Rank(first) <= Rank(stop) && (first == END || first in queries)
        invariant queries.Keys == old(queries.Keys)
        invariant forall k :: k in queries && (k < start || stop <= k) ==> queries[k] == old(queries[k])
        invariant ok ==> error == QID_LIMIT && second == old(second) && numWaiting == qId + 1 - Rank(first)
        invariant ok ==> forall k :: k in queries && first <= k < stop ==> queries[k] == BATCH_FAILURE
        invariant ok ==> NoneFrom(Rank(first))
        invariant Grows(old(backend.Answered), backend.Answered)
        invariant ok ==> forall k :: start <= k < Rank(first) ==>
                    queries[k].Data? && Own(k, queries[k], backend.Answered) && k !in backend.culprits
        invariant !ok ==>
                    && first == second && start < error == Rank(first)
                    && queries[error - 1] == BATCH_FAILURE
                    && FailedAlone(error - 1, backend.culprits, backend.Answered)
        invariant !ok ==> forall k :: start <= k < error - 1 ==>
                    queries[k].Data? && Own(k, queries[k], backend.Answered) && k !in backend.culprits
        decreases Rank(stop) - Rank(first)
      {
        ok := ReplayFirst();
      }
      allReplayed := ok;
    }

    /** Gives every pending query the same result. */
    method MarkBatch(r: Result)
      requires Structure() && first <= second
      modifies this`queries
      ensures queries.Keys == old(queries.Keys)
      ensures forall k :: k in queries ==> queries[k] == if first <= k < second then r else old(queries[k])
    {
      var i := first;
      while i != second
        invariant first <= i <= second && (i == END || i in queries)
        invariant queries.Keys == old(queries.Keys)
        invariant forall k :: k in queries && (k < first || i <= k) ==> queries[k] == old(queries[k])
        invariant forall k :: k in queries && first <= k < i ==> queries[k] == r
        decreases END - i
      {
        queries := queries[i := r];
        assert second == END || second in queries.Keys;
        i := Next(queries.Keys, i, qId);
      }
    }

    /** Marks the batch as failed and makes its queries wait again. */
    method UnissueBatch() returns (stop: int)
      requires Structure() && error == QID_LIMIT && backend.stream == []
      requires first < second && numWaiting == qId + 1 - Rank(second)
      requires forall k :: Rank(first) <= k <= qId ==> k in queries
      modifies this`queries, this`first, this`second, this`error, this`numWaiting, backend`stream
      ensures Structure() && error == QID_LIMIT && backend.stream == []
      ensures stop == old(second) && second == first == old(first) && numWaiting == qId + 1 - Rank(first)
      ensures queries.Keys == old(queries.Keys)
      ensures forall k :: k in queries ==>
                queries[k] == if first <= k < stop then BATCH_FAILURE else old(queries)[k]
    {
      hide Next, Answers, Responds, Pending, Dealt, Intact, Stopped, Own, Consistent, Earned;
      MarkBatch(BATCH_FAILURE);
      stop := second;
      var none := ObtainResult(true);
      var distance := Distance(first, stop);
      numWaiting := numWaiting + distance;
      second := first;
    }

    /** A rejected batch is replayed. Every query before the first that fails alone
        gets its own result, that one keeps the failure, and all later ones are
        refused. If none of them fails alone, the issued range is left back to front. */
    method RejectBatch() returns (allReplayed: bool)
      requires Structure() && error == QID_LIMIT && backend.stream == [] && !dummyPending
      requires first < second && numWaiting == qId + 1 - Rank(second)
      requires forall k :: Rank(first) <= k <= qId ==> k in queries
      requires forall k :: k in queries && k < first ==> Own(k, queries[k], backend.Answered)
      requires NoneFrom(first)
      modifies this`queries, this`first, this`second, this`error, this`numWaiting, backend
      ensures Grows(old(backend.Answered), backend.Answered)
      ensures queries.Keys == old(queries.Keys)
      ensures forall k :: k in queries && k < old(first) ==> queries[k] == old(queries[k])
      ensures !allReplayed <==> exists k :: old(first) <= k < old(Rank(second)) && k in backend.culprits
      ensures Consistent() <==> exists k :: old(first) <= k < old(Rank(second)) && k in backend.culprits
      ensures old(first) <= first && error <= old(error)
      ensures error == old(error) || old(first) <= error
      ensures allReplayed ==> first == old(second) && second == old(first) && first > second && error == old(error)
      ensures !allReplayed ==>
                && first == second && old(first) < error == Rank(first) <= old(Rank(second))
                && queries[error - 1] == BATCH_FAILURE
                && FailedAlone(error - 1, backend.culprits, backend.Answered)
                && forall k :: old(first) <= k < error - 1 ==>
                     queries[k].Data? && Own(k, queries[k], backend.Answered) && k !in backend.culprits
    {
      hide Next, Answers, Responds, Pending, Dealt, Intact, Stopped, Own, Consistent, Earned;
      ghost var start := first;
      var stop := UnissueBatch();
      allReplayed := Replay(stop);
      if allReplayed {
        BackToFront();
      } else {
        ReplayStops(start, old(queries), old(backend.Answered));
      }
    }

    lemma ReplayStops(start: int, before: map<int, Result>, answered: map<int, Result>)
      requires Structure() && first == second && backend.stream == [] && !dummyPending
      requires start < error == Rank(first) < QID_LIMIT && queries.Keys == before.Keys
      requires forall k :: k in queries && k < start ==> queries[k] == before[k] && Own(k, before[k], answered)
      requires Grows(answered, backend.Answered)
      requires error - 1 in queries && queries[error - 1] == BATCH_FAILURE
      requires FailedAlone(error - 1, backend.culprits, backend.Answered)
      requires forall k :: k in queries && start <= k < error - 1 ==> Own(k, queries[k], backend.Answered)
      ensures Consistent()
    {
    }

    lemma BackToFront()
      requires error == QID_LIMIT && first > second
      ensures !Consistent()
    {
    }

    /** Takes the dummy query's result: the batch was accepted, or it is replayed. */
    method ObtainDummy() returns (allReplayed: bool)
      requires Consistent() && dummyPending
      modifies this`queries, this`first, this`second, this`error, this`numWaiting, this`dummyPending, backend
      ensures Grows(old(backend.Answered), backend.Answered)
      ensures queries.Keys == old(queries.Keys) && !dummyPending
      ensures forall k :: k in queries && k < old(first) ==> queries[k] == old(queries[k])
      ensures Consistent() <==> !allReplayed
      ensures !allReplayed <==>
                || old(backend.stream)[0] == DummyRow
                || exists k :: old(first) <= k < old(Rank(second)) && k in backend.culprits
      ensures allReplayed ==> first == old(second) && second == old(first) && first > second && error == old(error)
      ensures backend.faithful ==> !allReplayed
      ensures old(first) <= first && error <= old(error)
      ensures error == old(error) || old(first) <= error
      ensures error == QID_LIMIT && !allReplayed ==> second == old(second) && numWaiting == old(numWaiting)
      ensures old(backend.stream)[0] == DummyRow ==>
                && queries == old(queries) && first == old(first) && second == old(second) && error == old(error)
      ensures old(backend.stream)[0] == DummyError && !allReplayed ==>
                && first == second && old(first) < error == Rank(first) <= old(Rank(second))
                && queries[error - 1] == BATCH_FAILURE
                && FailedAlone(error - 1, backend.culprits, backend.Answered)
                && forall k :: old(first) <= k < error - 1 ==>
                     queries[k].Data? && Own(k, queries[k], backend.Answered) && k !in backend.culprits
    {
      hide Answers;
      var r := backend.GetResult();
      dummyPending := false;
      if r == None {
        // The source throws here: no result where one was due.
        assert false;
      }
      if r.value == DummyRow {
        return false;
      }
      allReplayed := RejectBatch();
      if backend.faithful {
        ghost var q :| q in Ids(old(first), old(Rank(second))) && q in backend.culprits;
        assert old(first) <= q < old(Rank(second));
      }
    }

    /** Takes results as long as they are there without waiting. */
    method GetFurtherAvailableResults()
      requires Valid() && !dummyPending
      modifies this`queries, this`first, this`second, this`error, this`numWaiting, this`dummyPending, backend
      ensures Grows(old(backend.Answered), backend.Answered)
      ensures Valid() && !dummyPending && queries.Keys == old(queries.Keys)
      ensures forall k :: k in queries && k < old(first) ==> queries[k] == old(queries[k])
      ensures old(first) <= first && error <= old(error)
      ensures error == old(error) || old(first) <= error
      ensures error == QID_LIMIT ==> second == old(second) && numWaiting == old(numWaiting)
    {
      var busy: bool := *;
      var more := true;
      while !busy && more
        invariant Valid() && !dummyPending && queries.Keys == old(queries.Keys)
        invariant forall k :: k in queries && k < old(first) ==> queries[k] == old(queries[k])
        invariant old(first) <= first && error <= old(error)
        invariant error == old(error) || old(first) <= error
        invariant error == QID_LIMIT ==> second == old(second) && numWaiting == old(numWaiting)
        decreases |backend.stream|, more
        modifies this`queries, this`first, this`second, this`error, backend`stream
      {
        more := ObtainResult(false);
        busy := *;
      }
    }

    /** Takes whatever results happen to have arrived. */
    method ReceiveIfAvailable()
      requires Valid()
      modifies this`queries, this`first, this`second, this`error, this`numWaiting, this`dummyPending, backend
      ensures Grows(old(backend.Answered), backend.Answered)
      ensures Valid() && queries.Keys == old(queries.Keys)
      ensures forall k :: k in queries && k < old(first) ==> queries[k] == old(queries[k])
      ensures old(first) <= first && error <= old(error)
      ensures error == old(error) || old(first) <= error
      ensures error == QID_LIMIT ==> second == old(second) && numWaiting == old(numWaiting)
      ensures !old(HavePending()) ==> queries == old(queries) && first == old(first) && error == old(error)
    {
      var busy: bool := *;
      if busy {
        return;
      }
      if dummyPending {
        var allReplayed := ObtainDummy();
      }
      if HavePending() {
        GetFurtherAvailableResults();
      }
    }

    /** Waits for results up to `stop`: afterwards every pending query before it has
        its result, unless an error put it out of reach. */
    method Receive(stop: int)
      requires Valid() && (stop == END || stop in queries)
      modifies this`queries, this`first, this`second, this`error, this`numWaiting, this`dummyPending, backend
      ensures Grows(old(backend.Answered), backend.Answered)
      ensures Valid() && !dummyPending && queries.Keys == old(queries.Keys)
      ensures forall k :: k in queries && k < old(first) ==> queries[k] == old(queries[k])
      ensures old(first) <= first && error <= old(error)
      ensures error == old(error) || old(first) <= error
      ensures error == QID_LIMIT ==> second == old(second) && numWaiting == old(numWaiting)
      ensures forall k :: k in queries && k < stop && k < old(second) && k < error ==> k < first
      ensures stop == old(second) ==> first == second
    {
      hide Pending, Answers, Own, Responds;
      if dummyPending {
        var allReplayed := ObtainDummy();
      }
      var arrived := ReceiveUntil(stop);
      if arrived {
        GetFurtherAvailableResults();
      }
    }

    /** Takes results one by one until the range starts at `stop` or they run out. */
    method ReceiveUntil(stop: int) returns (arrived: bool)
      requires Valid() && !dummyPending
      modifies this`queries, this`first, this`second, this`error, backend`stream
      ensures Valid() && !dummyPending && queries.Keys == old(queries.Keys)
      ensures forall k :: k in queries && k < old(first) ==> queries[k] == old(queries[k])
      ensures old(first) <= first && error <= old(error)
      ensures error == old(error) || old(first) <= error
      ensures error == QID_LIMIT ==> second == old(second)
      ensures arrived <==> first == stop
      ensures !arrived ==> first == second && forall k :: k in queries && k < old(second) && k < error ==> k < first
      ensures stop == old(second) ==> first == second
    {
      hide Pending, Answers, Own, Responds, Intact, Stopped;
      var got := ObtainResult(false);
      while got && first != stop
        invariant Valid() && !dummyPending && queries.Keys == old(queries.Keys)
        invariant forall k :: k in queries && k < old(first) ==> queries[k] == old(queries[k])
        invariant old(first) <= first && error <= old(error)
        invariant error == old(error) || old(first) <= error
        invariant error == QID_LIMIT ==> second == old(second)
        invariant got ==> second == old(second)
        invariant !got ==> first == second && forall k :: k in queries && k < old(second) && k < error ==> k < first
        decreases |backend.stream|, got
      {
        got := ObtainResult(false);
      }
      arrived := first == stop;
    }

    /** Sends everything that waits as one batch, the dummy query in front if it is
        more than one. Nothing is sent once there has been an error. */
    method Issue()
      requires Valid() && first == second && (error == QID_LIMIT ==> numWaiting != 0)
      modifies this`queries, this`first, this`second, this`error, this`numWaiting, this`dummyPending, backend
      ensures Grows(old(backend.Answered), backend.Answered)
      ensures Valid() && queries == old(queries) && error == old(error)
      ensures error == QID_LIMIT ==> first == old(second) && second == END && numWaiting == 0 && HavePending()
      ensures error < QID_LIMIT ==> first == old(first) && second == old(second) && numWaiting == old(numWaiting)
    {
      hide Answers, Responds, Own;
      var got := ObtainResult(false);
      if error < QID_LIMIT {
        return;
      }
      SendBatch();
    }

    lemma OwnStays(answered: map<int, Result>)
      requires Grows(answered, backend.Answered)
      requires forall k :: k in queries && k < first ==> Own(k, queries[k], answered)
      ensures forall k :: k in queries && k < first ==> Own(k, queries[k], backend.Answered)
    {
    }

    /** Sends the waiting queries, from the end of the issued range on. */
    method SendBatch()
      requires Valid() && first == second && error == QID_LIMIT && numWaiting != 0
      modifies this`first, this`second, this`numWaiting, this`dummyPending, backend
      ensures Grows(old(backend.Answered), backend.Answered)
      ensures Valid() && first == old(second) && second == END && numWaiting == 0 && HavePending()
    {
      hide Answers, Responds, Own;
      var oldest := second;
      var numIssued := Distance(oldest, END);
      var prependDummy := numIssued > 1;
      var ids := Ids(oldest, oldest + numIssued);
      IdsAreBetween(oldest, oldest + numIssued);
      hide Ids, Recorded;
      backend.StartExec(ids, prependDummy);
      OwnStays(old(backend.Answered));
      hide Grows;
      dummyPending := prependDummy;
      first := oldest;
      second := END;
      numWaiting := numWaiting - numIssued;
    }

    /** Puts a new query at the end of the map, where it waits to be issued. */
    method Append(id: int)
      requires Valid() && id == qId + 1 < QID_LIMIT - 1
      modifies this`queries, this`first, this`second, this`numWaiting, this`qId
      ensures Valid() && qId == id && queries == old(queries)[id := Empty]
      ensures HavePending() == old(HavePending()) && numWaiting == old(numWaiting) + 1
      ensures old(HavePending()) ==> first == old(first)
      ensures !old(HavePending()) ==> first >= (if old(first) == END then id else old(first))
    {
      hide Answers, Own, Responds;
      qId := id;
      queries := queries[id := Empty];
      if second == END {
        second := id;
        if first == END {
          first := id;
        }
      }
      numWaiting := numWaiting + 1;
      assert Rank(second) == old(Rank(second));
    }

    /** Adds a query. Results that were in stay with their queries. The last two ids
        of the 64-bit range are not given out here. */
    method Insert() returns (id: int)
      requires Valid() && qId + 1 < QID_LIMIT - 1
      modifies this, backend
      ensures Grows(old(backend.Answered), backend.Answered)
      ensures Valid() && id == qId == old(qId) + 1 && retain == old(retain)
      ensures queries.Keys == old(queries.Keys) + {id}
      ensures forall k :: k in old(queries) && k < old(first) ==> queries[k] == old(queries[k])
      ensures error <= old(error) && (old(error) < QID_LIMIT ==> error == old(error) <= id)
      ensures forall k :: k in old(queries) && k < old(first) ==> k < first
      ensures old(Rank(first)) <= Rank(first) && (error == old(error) || old(Rank(first)) <= error)
      ensures old(numWaiting) < retain ==> numWaiting == old(numWaiting) + 1 && backend.stream == old(backend.stream)
      ensures error == QID_LIMIT ==> numWaiting <= retain || HavePending()
    {
      hide Answers, Own, Responds, Pending;
      id := qId + 1;
      Append(id);
      if numWaiting > retain {
        if HavePending() {
          ReceiveIfAvailable();
        }
        if !HavePending() {
          Issue();
        }
      }
    }

    /** Removes a query whose result is in. */
    method Forget(q: int)
      requires Valid() && q in queries && q < error && (error == QID_LIMIT ==> q < first)
      modifies this`queries
      ensures Valid() && queries == old(queries) - {q}
    {
      hide Answers, Responds, Own;
      queries := queries - {q};
    }

    lemma ResultIsIn(q: int)
      requires Valid() && q in queries && q < error && (error == QID_LIMIT ==> q < first)
      ensures Settled(q) && queries[q] != Empty && q < first
      ensures q in backend.Answered && (queries[q].Data? <==> backend.Answered[q].Data?)
    {
    }

    /** First part of a retrieval: issues the query if it still waits. */
    method EnsureIssued(q: int)
      requires Valid() && q in queries && q < error
      modifies this, backend
      ensures Grows(old(backend.Answered), backend.Answered)
      ensures Valid() && queries.Keys == old(queries.Keys) && old(first) <= first
      ensures forall k :: k in queries && k < old(first) ==> queries[k] == old(queries[k])
      ensures error <= old(error) && (old(error) < QID_LIMIT ==> error == old(error))
      ensures error == old(error) || old(first) <= error
      ensures qId == old(qId) && retain == old(retain)
      ensures error == QID_LIMIT ==> q < Rank(second)
    {
      hide Answers, Responds, Pending, Own;
      if second != END && q >= second {
        if HavePending() {
          Receive(second);
        }
        if error == QID_LIMIT {
          Issue();
        }
      }
    }

    /** Second part: waits for the query's result, or takes what is there. */
    method EnsureReceived(q: int)
      requires Valid() && q in queries && (error == QID_LIMIT ==> q < Rank(second))
      modifies this`queries, this`first, this`second, this`error, this`numWaiting, this`dummyPending, backend
      ensures Grows(old(backend.Answered), backend.Answered)
      ensures Valid() && queries.Keys == old(queries.Keys) && old(first) <= first
      ensures forall k :: k in queries && k < old(first) ==> queries[k] == old(queries[k])
      ensures error <= old(error) && (old(error) < QID_LIMIT ==> error == old(error))
      ensures error == old(error) || old(first) <= error
      ensures error == QID_LIMIT ==> q < first
      ensures error == QID_LIMIT ==> numWaiting == old(numWaiting)
    {
      hide Answers, Responds, Pending, Own;
      if HavePending() {
        if q >= first {
          Receive(Next(queries.Keys, q, qId));
        } else {
          ReceiveIfAvailable();
        }
      }
    }

    /** Hands out a query's own result and forgets the query, issuing and waiting as
        needed. Queries from the error on are refused, and only those. */
    method Retrieve(q: int) returns (r: Retrieved)
      requires Valid()
      modifies this, backend
      ensures Grows(old(backend.Answered), backend.Answered)
      ensures Valid() && qId == old(qId) && retain == old(retain)
      ensures r.UnknownQuery? <==> q !in old(queries)
      ensures r.Refused? <==> q in old(queries) && q >= error
      ensures r.Got? || r.Failed? ==> q < first
      ensures r.Got? ==> r.query == q && r.result.Data? && Own(q, r.result, backend.Answered)
      ensures r.Failed? ==>
                r.query == q && r.failure.Failure? && Earned(q, r.failure, error, backend.culprits, backend.Answered)
      ensures r.Got? || r.Failed? ==> q in backend.Answered && (r.Got? <==> backend.Answered[q].Data?)
      ensures queries.Keys == old(queries.Keys) - (if r.Got? || r.Failed? then {q} else {})
      ensures old(first) <= first
      ensures forall k :: k in queries && k < old(first) ==> queries[k] == old(queries[k])
      ensures q in old(queries) && q < old(first) && q < old(error) ==>
                r == if old(queries)[q].Data? then Got(q, old(queries)[q]) else Failed(q, old(queries)[q])
      ensures error <= old(error) && (old(error) < QID_LIMIT ==> error == old(error))
      ensures error == old(error) || old(first) <= error
    {
      hide Answers, Responds, Pending, Consistent, Own;
      if q !in queries {
        return UnknownQuery;
      }
      if q >= error {
        return Refused;
      }
      EnsureIssued(q);
      EnsureReceived(q);
      if q >= error {
        return Refused;
      }
      if numWaiting != 0 && !HavePending() && error == QID_LIMIT {
        Issue();
      }
      ResultIsIn(q);
      var result := queries[q];
      Forget(q);
      r := if result.Data? then Got(q, result) else Failed(q, result);
    }

    /** The oldest query is the one with the least id. */
    method RetrieveOldest() returns (r: Retrieved, q: int)
      requires Valid()
      modifies this, backend
      ensures Grows(old(backend.Answered), backend.Answered)
      ensures Valid() && qId == old(qId) && retain == old(retain)
      ensures r.UnknownQuery? <==> old(queries) == map[]
      ensures !r.UnknownQuery? ==> q in old(queries) && forall k :: k in old(queries) ==> q <= k
      ensures !r.UnknownQuery? ==> (r.Refused? <==> q >= error)
      ensures r.Got? || r.Failed? ==> q < first
      ensures r.Got? ==> r.query == q && r.result.Data? && Own(q, r.result, backend.Answered)
      ensures r.Failed? ==>
                r.query == q && r.failure.Failure? && Earned(q, r.failure, error, backend.culprits, backend.Answered)
      ensures r.Got? || r.Failed? ==> q in backend.Answered && (r.Got? <==> backend.Answered[q].Data?)
      ensures queries.Keys == old(queries.Keys) - (if r.Got? || r.Failed? then {q} else {})
      ensures old(first) <= first
      ensures forall k :: k in queries && k < old(first) ==> queries[k] == old(queries[k])
      ensures !r.UnknownQuery? && q < old(first) && q < old(error) ==>
                r == if old(queries)[q].Data? then Got(q, old(queries)[q]) else Failed(q, old(queries)[q])
      ensures error <= old(error) && (old(error) < QID_LIMIT ==> error == old(error))
      ensures error == old(error) || old(first) <= error
    {
      var oldest := Next(queries.Keys, 0, qId);
      q := oldest;
      if oldest == END {
        assert forall k :: k !in queries;
        return UnknownQuery, q;
      }
      r := Retrieve(oldest);
    }

    /** Retrieving the oldest query until there is none or it is refused, as the header
        advises. Every query before the error comes out, in the order of submission and
        with its own answer; the one that failed when its batch was replayed is the
        last of them, and exactly the queries behind it are left. */
    method Drain() returns (ids: seq<int>, results: seq<Result>)
      requires Valid()
      modifies this, backend
      ensures Grows(old(backend.Answered), backend.Answered)
      ensures Valid() && |ids| == |results|
      ensures forall i :: 0 <= i < |ids| ==> Earned(ids[i], results[i], error, backend.culprits, backend.Answered)
      ensures forall i, j :: 0 <= i < j < |ids| ==> ids[i] < ids[j]
      ensures forall k :: k in ids <==> k in old(queries) && k < error
      ensures forall k :: k in queries <==> k in old(queries) && k >= error
    {
      hide Drained;
      ids, results := [], [];
      NothingDrained(queries.Keys, first, error, backend.culprits, backend.Answered);
      var more := true;
      while more
        invariant Valid() && Grows(old(backend.Answered), backend.Answered)
        invariant Drained(old(queries.Keys), ids, results, queries.Keys,
                          first, error, backend.culprits, backend.Answered)
        invariant !more ==> forall k :: k in queries ==> k >= error
        decreases |queries.Keys|, more
      {
        hide Valid, Own;
        ghost var left, wasFirst, wasError, answered := queries.Keys, first, error, backend.Answered;
        var r, q := RetrieveOldest();
        more := r.Got? || r.Failed?;
        if more {
          var result := if r.Got? then r.result else r.failure;
          OneDrained(old(queries.Keys), ids, results, left, wasFirst, wasError, backend.culprits, answered,
                     q, result, first, error, backend.Answered);
          ids, results := ids + [q], results + [result];
        } else {
          StillDrained(old(queries.Keys), ids, results, left, wasFirst, wasError, backend.culprits, answered,
                       first, error, backend.Answered);
        }
      }
      AllDrained(old(queries.Keys), ids, results, queries.Keys, first, error, backend.culprits, backend.Answered);
    }

    /** A query counts as finished exactly when its own result is there to be had. */
    method IsFinished(q: int) returns (known: bool, finished: bool)
      requires Valid()
      ensures known <==> q in queries
      ensures known ==> (finished <==> q < error && Settled(q))
    {
      known, finished := q in queries, false;
      if known {
        finished := first == END || (q < first && q < error);
      }
    }

    method Complete()
      requires Valid()
      modifies this, backend
      ensures Grows(old(backend.Answered), backend.Answered)
      ensures Valid() && first == second && queries.Keys == old(queries.Keys)
      ensures forall k :: k in queries && k < old(first) ==> queries[k] == old(queries[k])
      ensures forall k :: k in queries && k < error ==> Settled(k)
      ensures qId == old(qId) && retain == old(retain) && old(first) <= first
      ensures error <= old(error) && (old(error) < QID_LIMIT ==> error == old(error))
      ensures error == old(error) || old(first) <= error
    {
      hide Answers, Responds, Pending;
      if HavePending() {
        Receive(second);
      }
      if numWaiting != 0 && error == QID_LIMIT {
        Issue();
        Receive(END);
      }
    }

    /** Forgets all queries and results. The header says an error is cleared too; the
        code leaves it, and every later query will be refused. */
    method Flush()
      requires Valid()
      modifies this, backend
      ensures Grows(old(backend.Answered), backend.Answered)
      ensures Valid() && queries == map[] && !HavePending() && qId == old(qId) && retain == old(retain)
      ensures error <= old(error) && (old(error) < QID_LIMIT ==> error == old(error))
      ensures error == old(error) || old(first) <= error
    {
      hide Answers, Responds, Pending;
      if queries != map[] {
        if HavePending() {
          Receive(second);
        }
        first, second := END, END;
        numWaiting := 0;
        dummyPending := false;
        queries := map[];
      }
    }

    /** Drops the pending queries. The results already under way are not taken off
        the connection, so the pipeline stays in order exactly when there were none. */
    method Cancel()
      requires Valid()
      modifies this`queries, this`first
      ensures first == second && !HavePending()
      ensures queries == map k | k in old(queries) && !(old(first) <= k < second) :: old(queries)[k]
      ensures Valid() <==> backend.stream == []
    {
      while HavePending()
        invariant Structure() && old(first) <= first <= second
        invariant old(HavePending()) ==> forall k :: Rank(first) <= k <= qId ==> k in queries
        invariant queries == map k | k in old(queries) && !(old(first) <= k < first) :: old(queries)[k]
        decreases END - first
      {
        var canceled := first;
        NextId(first);
        first := Next(queries.Keys, first, qId);
        queries := queries - {canceled};
      }
    }

    method Resume()
      requires Valid()
      modifies this, backend
      ensures Grows(old(backend.Answered), backend.Answered)
      ensures Valid() && qId == old(qId) && retain == old(retain) && queries.Keys == old(queries.Keys)
      ensures forall k :: k in queries && k < old(first) ==> queries[k] == old(queries[k])
      ensures error == QID_LIMIT ==> numWaiting == 0 || HavePending()
      ensures old(first) <= first && error <= old(error)
      ensures error == old(error) || old(first) <= error
    {
      hide Answers, Responds, Pending;
      if HavePending() {
        ReceiveIfAvailable();
      }
      if !HavePending() && numWaiting != 0 {
        Issue();
        ReceiveIfAvailable();
      }
    }

    method Retain(retainMax: int) returns (ok: bool, was: int)
      requires Valid()
      modifies this, backend
      ensures Grows(old(backend.Answered), backend.Answered)
      ensures Valid() && ok == (retainMax >= 0) && queries.Keys == old(queries.Keys)
      ensures retain == if ok then retainMax else old(retain)
      ensures ok ==> was == old(retain)
      ensures ok && error == QID_LIMIT ==> numWaiting == 0 || numWaiting < retain || HavePending()
      ensures qId == old(qId) && old(first) <= first && error <= old(error)
      ensures error == old(error) || old(first) <= error
      ensures forall k :: k in queries && k < old(first) ==> queries[k] == old(queries[k])
    {
      ok, was := retainMax >= 0, retain;
      if !ok {
        return;
      }
      retain := retainMax;
      if numWaiting >= retain {
        Resume();
      }
    }
  }
}
