/** Whole runs of a query pipeline (pipeline.cxx), from its construction on. */
module PipelineRuns {
  import opened Common
  import opened Pipeline

  // ---------------------------------------------------------------------
  // A rejected batch that nobody is to blame for
  // ---------------------------------------------------------------------

  /** Two queries in a batch that is rejected although each of them succeeds alone: the
      replay leaves the issued range with its end before its start. */
  method ReplayWithoutCulprit() returns (p: Pipe)
    ensures p.backend.culprits == {} && p.queries.Keys == {1, 2}
    ensures p.first == END && p.second == 1 && p.error == QID_LIMIT && !p.Consistent()
  {
    var backend := new Backend({}, false);
    p := new Pipe(backend);
    p.queries, p.first, p.second, p.qId, p.dummyPending := map[1 := Empty, 2 := Empty], 1, END, 2, true;
    backend.stream := [DummyError];
    assert p.Consistent();
    var allReplayed := p.ObtainDummy();
    assert allReplayed;
  }

  // ---------------------------------------------------------------------
  // Calls and what they are answered
  // ---------------------------------------------------------------------

  datatype Call =
    | Insert
    | Retrieve(q: int)
    | RetrieveOldest
    | IsFinished(q: int)
    | Complete
    | Flush
    | Resume
    | Retain(max: int)

  datatype Answer =
    | Inserted(id: int)
    | Answered(query: int, result: Result)
    | Refusal(query: int)
    | Unknown
    | Nothing

  function Outcome(q: int, r: Retrieved): Answer {
    match r
    case UnknownQuery => Unknown
    case Refused => Refusal(q)
    case Failed(query, failure) => Answered(query, failure)
    case Got(query, result) => Answered(query, result)
  }

  /** Whether an answer is one to this call, given the queries in the pipeline and the
      number of ids given out. */
  predicate Replies(call: Call, kept: set<int>, ids: nat, a: Answer) {
    match call
    case Insert => a == Inserted(ids + 1)
    case Retrieve(q) =>
      if q in kept then (a.Answered? && a.query == q) || a == Refusal(q) else a == Unknown
    case RetrieveOldest =>
      if kept == {} then a == Unknown
      else (a.Answered? || a.Refusal?) && a.query in kept && forall k :: k in kept ==> a.query <= k
    case _ => a == Nothing
  }

  /** The queries that are in the pipeline after a call. */
  function Keep(kept: set<int>, call: Call, a: Answer): set<int> {
    if a.Inserted? then kept + {a.id}
    else if a.Answered? then kept - {a.query}
    else if call == Flush then {}
    else kept
  }

  function Kept(calls: seq<Call>, answers: seq<Answer>): set<int>
    requires |calls| == |answers|
  {
    if calls == [] then {}
    else
      var n := |calls| - 1;
      Keep(Kept(calls[..n], answers[..n]), calls[n], answers[n])
  }

  /** How many ids a run has given out. */
  function Ids(calls: seq<Call>): (n: nat)
    ensures n <= |calls|
  {
    if calls == [] then 0
    else Ids(calls[..|calls| - 1]) + (if calls[|calls| - 1] == Insert then 1 else 0)
  }

  predicate RegularAt(calls: seq<Call>, answers: seq<Answer>, i: nat)
    requires i < |answers| <= |calls|
  {
    Replies(calls[i], Kept(calls[..i], answers[..i]), Ids(calls[..i]), answers[i])
  }

  /** Every answer so far is one to its call. */
  predicate Regular(calls: seq<Call>, answers: seq<Answer>) {
    |answers| <= |calls| && forall i :: 0 <= i < |answers| ==> RegularAt(calls, answers, i)
  }

  lemma StillRegular(calls: seq<Call>, answers: seq<Answer>, a: Answer, i: nat)
    requires i < |answers| < |calls| && RegularAt(calls, answers, i)
    ensures RegularAt(calls, answers + [a], i)
  {
    hide Replies, Kept, Ids;
    assert (answers + [a])[..i] == answers[..i];
  }

  lemma LastCall(calls: seq<Call>, answers: seq<Answer>, call: Call, a: Answer)
    requires |calls| == |answers|
    ensures Kept(calls + [call], answers + [a]) == Keep(Kept(calls, answers), call, a)
    ensures Ids(calls + [call]) == Ids(calls) + (if call == Insert then 1 else 0)
  {
    hide Keep;
    assert (calls + [call])[..|calls|] == calls && (answers + [a])[..|calls|] == answers;
  }

  lemma KeptStep(calls: seq<Call>, answers: seq<Answer>, a: Answer)
    requires |answers| < |calls|
    ensures var n := |answers|;
      Kept(calls[..n + 1], answers + [a]) == Keep(Kept(calls[..n], answers), calls[n], a)
    ensures var n := |answers|; Ids(calls[..n + 1]) == Ids(calls[..n]) + (if calls[n] == Insert then 1 else 0)
  {
    hide Keep, Kept, Ids;
    var n := |answers|;
    LastCall(calls[..n], answers, calls[n], a);
    assert calls[..n + 1] == calls[..n] + [calls[n]];
  }

  lemma RegularStep(calls: seq<Call>, answers: seq<Answer>, a: Answer)
    requires Regular(calls, answers) && |answers| < |calls|
    requires var n := |answers|; Replies(calls[n], Kept(calls[..n], answers), Ids(calls[..n]), a)
    ensures Regular(calls, answers + [a])
  {
    hide Replies, Kept, Ids;
    assert RegularAt(calls, answers + [a], |answers|) by {
      assert (answers + [a])[..|answers|] == answers;
    }
    hide RegularAt;
    forall i | 0 <= i < |answers|
      ensures RegularAt(calls, answers + [a], i)
    {
      StillRegular(calls, answers, a, i);
    }
  }

  // ---------------------------------------------------------------------
  // What holds of all answers together
  // ---------------------------------------------------------------------

  /** Every result handed out is earned, by what the server answered, and is handed out
      once; every query answered is before the error and every one refused is not. */
  ghost predicate Honest(answers: seq<Answer>, error: int, culprits: set<int>, answered: map<int, Result>) {
    && (forall i :: 0 <= i < |answers| && answers[i].Answered? ==>
          answers[i].query < error && Earned(answers[i].query, answers[i].result, error, culprits, answered))
    && (forall i :: 0 <= i < |answers| && answers[i].Refusal? ==> answers[i].query >= error)
    && (forall i, j :: 0 <= i < j < |answers| && answers[i].Answered? && answers[j].Answered? ==>
          answers[i].query != answers[j].query)
  }

  /** What keeps the answers honest: those given are out of the pipeline, behind its
      issued range, and no id comes back. */
  ghost predicate Ledger(answers: seq<Answer>, kept: set<int>, rank: int, error: int, ids: nat,
                         culprits: set<int>, answered: map<int, Result>)
  {
    && Honest(answers, error, culprits, answered) && error <= QID_LIMIT
    && (forall i :: 0 <= i < |answers| && answers[i].Answered? ==>
          answers[i].query !in kept && answers[i].query < rank && answers[i].query <= ids)
    && (forall i :: 0 <= i < |answers| && answers[i].Refusal? ==> answers[i].query <= ids)
    && (forall k :: k in kept ==> k <= ids)
  }

  lemma LedgerStep(answers: seq<Answer>, kept: set<int>, rank: int, error: int, ids: nat, culprits: set<int>,
                   answered: map<int, Result>, call: Call, a: Answer, nextRank: int, nextError: int,
                   nextAnswered: map<int, Result>)
    requires Ledger(answers, kept, rank, error, ids, culprits, answered) && Replies(call, kept, ids, a)
    requires Grows(answered, nextAnswered)
    requires rank <= nextRank && nextError <= error && (nextError == error || (error == QID_LIMIT && rank <= nextError))
    requires a.Answered? ==>
               a.query < nextRank && a.query < nextError
               && Earned(a.query, a.result, nextError, culprits, nextAnswered)
    requires a.Refusal? ==> a.query >= nextError
    requires ids < QID_LIMIT - 2
    ensures Ledger(answers + [a], Keep(kept, call, a), nextRank, nextError,
                   ids + (if call == Insert then 1 else 0), culprits, nextAnswered)
  {
  }

  lemma NewLedger(rank: int, culprits: set<int>, answered: map<int, Result>)
    ensures Ledger([], {}, rank, QID_LIMIT, 0, culprits, answered)
    ensures Regular([], []) && Kept([], []) == {} && Ids([]) == 0
    ensures forall calls :: Regular(calls, [])
  {
  }

  lemma HonestLedger(answers: seq<Answer>, kept: set<int>, rank: int, error: int, ids: nat, culprits: set<int>,
                     answered: map<int, Result>)
    requires Ledger(answers, kept, rank, error, ids, culprits, answered)
    ensures Honest(answers, error, culprits, answered)
  {
  }

  method PerformRetrieve(p: Pipe, q: int) returns (a: Answer)
    requires p.Valid()
    modifies p, p.backend
    ensures p.Valid() && p.qId == old(p.qId)
    ensures Replies(Retrieve(q), old(p.queries.Keys), old(p.qId), a)
    ensures p.queries.Keys == Keep(old(p.queries.Keys), Retrieve(q), a)
    ensures old(p.Rank(p.first)) <= p.Rank(p.first) && p.error <= old(p.error)
    ensures p.error == old(p.error) || (old(p.error) == QID_LIMIT && old(p.Rank(p.first)) <= p.error)
    ensures Grows(old(p.backend.Answered), p.backend.Answered)
    ensures a.Answered? ==>
              a.query < p.Rank(p.first) && a.query < p.error
              && Earned(a.query, a.result, p.error, p.backend.culprits, p.backend.Answered)
    ensures a.Refusal? ==> a.query >= p.error
  {
    hide Own;
    var r := p.Retrieve(q);
    a := Outcome(q, r);
  }

  method PerformRetrieveOldest(p: Pipe) returns (a: Answer)
    requires p.Valid()
    modifies p, p.backend
    ensures p.Valid() && p.qId == old(p.qId)
    ensures Replies(RetrieveOldest, old(p.queries.Keys), old(p.qId), a)
    ensures p.queries.Keys == Keep(old(p.queries.Keys), RetrieveOldest, a)
    ensures old(p.Rank(p.first)) <= p.Rank(p.first) && p.error <= old(p.error)
    ensures p.error == old(p.error) || (old(p.error) == QID_LIMIT && old(p.Rank(p.first)) <= p.error)
    ensures Grows(old(p.backend.Answered), p.backend.Answered)
    ensures a.Answered? ==>
              a.query < p.Rank(p.first) && a.query < p.error
              && Earned(a.query, a.result, p.error, p.backend.culprits, p.backend.Answered)
    ensures a.Refusal? ==> a.query >= p.error
  {
    hide Own;
    var r, q := p.RetrieveOldest();
    a := Outcome(q, r);
  }

  /** One call. */
  method Perform(p: Pipe, call: Call) returns (a: Answer)
    requires p.Valid() && (call == Insert ==> p.qId + 1 < QID_LIMIT - 1)
    modifies p, p.backend
    ensures p.Valid() && p.qId == old(p.qId) + (if call == Insert then 1 else 0)
    ensures Replies(call, old(p.queries.Keys), old(p.qId), a)
    ensures p.queries.Keys == Keep(old(p.queries.Keys), call, a)
    ensures old(p.Rank(p.first)) <= p.Rank(p.first) && p.error <= old(p.error)
    ensures p.error == old(p.error) || (old(p.error) == QID_LIMIT && old(p.Rank(p.first)) <= p.error)
    ensures Grows(old(p.backend.Answered), p.backend.Answered)
    ensures a.Answered? ==>
              a.query < p.Rank(p.first) && a.query < p.error
              && Earned(a.query, a.result, p.error, p.backend.culprits, p.backend.Answered)
    ensures a.Refusal? ==> a.query >= p.error
  {
    hide Own, Earned;
    a := Nothing;
    match call {
      case Insert =>
        var id := p.Insert();
        a := Inserted(id);
      case Retrieve(q) =>
        a := PerformRetrieve(p, q);
      case RetrieveOldest =>
        a := PerformRetrieveOldest(p);
      case IsFinished(q) =>
        var known, finished := p.IsFinished(q);
      case Complete =>
        p.Complete();
      case Flush =>
        p.Flush();
      case Resume =>
        p.Resume();
      case Retain(max) =>
        var ok, was := p.Retain(max);
    }
  }

  ghost predicate InSession(p: Pipe, calls: seq<Call>, answers: seq<Answer>)
    reads p, p.backend
  {
    && p.Valid() && |answers| <= |calls| && p.qId == Ids(calls[..|answers|])
    && p.queries.Keys == Kept(calls[..|answers|], answers) && Regular(calls, answers)
    && Ledger(answers, p.queries.Keys, p.Rank(p.first), p.error, p.qId, p.backend.culprits, p.backend.Answered)
  }

  lemma SessionIsHonest(p: Pipe, calls: seq<Call>, answers: seq<Answer>)
    requires InSession(p, calls, answers) && |answers| == |calls|
    ensures Regular(calls, answers) && Honest(answers, p.error, p.backend.culprits, p.backend.Answered)
    ensures p.queries.Keys == Kept(calls, answers)
    ensures p.error == QID_LIMIT ==>
              p.first <= p.second && p.numWaiting == |set k | k in p.queries && p.second <= k|
  {
    hide Kept, Ids, Regular, Honest;
    assert calls[..|calls|] == calls;
    HonestLedger(answers, p.queries.Keys, p.Rank(p.first), p.error, p.qId, p.backend.culprits, p.backend.Answered);
    if p.error == QID_LIMIT {
      p.WaitingIsCounted();
    }
  }

  /** The next call of a run. */
  method Continue(p: Pipe, calls: seq<Call>, answers: seq<Answer>) returns (a: Answer)
    requires InSession(p, calls, answers) && |answers| < |calls| < QID_LIMIT - 2
    modifies p, p.backend
    ensures InSession(p, calls, answers + [a])
  {
    hide Keep, Kept, Ids, Replies, Regular, Ledger, Earned, Grows;
    ghost var kept, rank, error, ids := p.queries.Keys, p.Rank(p.first), p.error, p.qId;
    ghost var answered := p.backend.Answered;
    var call := calls[|answers|];
    a := Perform(p, call);
    RegularStep(calls, answers, a);
    KeptStep(calls, answers, a);
    LedgerStep(answers, kept, rank, error, ids, p.backend.culprits, answered,
               call, a, p.Rank(p.first), p.error, p.backend.Answered);
  }

  /** Any run of calls on a new pipeline. Ids count the insertions; a query is known
      exactly from its insertion until it is retrieved or flushed; what it is answered
      is what the server answered to it, or its batch's failure if it failed when run
      alone, once in the whole run; and
      one error separates all queries ever answered from all ever refused. Without an
      error the waiting queries are as many as counted. */
  method Session(culprits: set<int>, calls: seq<Call>) returns (p: Pipe, answers: seq<Answer>)
    requires |calls| < QID_LIMIT - 2
    ensures |answers| == |calls| && Regular(calls, answers)
    ensures Honest(answers, p.error, culprits, p.backend.Answered)
    ensures p.queries.Keys == Kept(calls, answers)
    ensures p.error == QID_LIMIT ==>
              p.first <= p.second && p.numWaiting == |set k | k in p.queries && p.second <= k|
  {
    var backend := new Backend(culprits, true);
    p := new Pipe(backend);
    answers := [];
    hide Keep, Kept, Ids, Replies, Regular, Ledger;
    NewLedger(p.Rank(p.first), culprits, p.backend.Answered);
    assert InSession(p, calls, answers);
    hide InSession;
    for n := 0 to |calls|
      invariant fresh(p) && fresh(p.backend) && p.backend.culprits == culprits
      invariant |answers| == n && InSession(p, calls, answers)
    {
      var a := Continue(p, calls, answers);
      answers := answers + [a];
    }
    SessionIsHonest(p, calls, answers);
  }
}
