/** Stateless retrieval on top of a scrolling cursor (cursor.cxx, cursor.hxx). */
module StatelessCursor {
  import opened SqlCursor

  datatype Result<T> = Ok(value: T) | OutOfRange

  function ClampEnd(size: nat, end: int): int {
    if end < -1 then -1 else if end > size then size else end
  }

  /** What the interface promises: the existing rows from `begin` up to but not
      including `end`, in that order. Rows are numbered from 0. */
  function Promised<Row>(rows: seq<Row>, begin: nat, end: int): seq<Row>
    requires begin <= |rows|
  {
    var e := ClampEnd(|rows|, end);
    if begin <= e then rows[begin..e]
    else Reverse(rows[e + 1..Min(begin + 1, |rows|)])
  }

  /** What the implementation delivers. Starting one past the last row and going
      back, it stands on the last row's far side already, so it reads one more. */
  function Delivered<Row>(rows: seq<Row>, begin: nat, end: int): seq<Row>
    requires begin <= |rows|
  {
    var e := ClampEnd(|rows|, end);
    if begin == |rows| && 0 <= e < begin then Reverse(rows[e..])
    else Promised(rows, begin, end)
  }

  /** The promise is kept exactly when the request does not run backwards from one
      past the last row to an end inside the result set. */
  lemma PromiseKept<Row>(rows: seq<Row>, begin: nat, end: int)
    requires begin <= |rows|
    ensures Delivered(rows, begin, end) == Promised(rows, begin, end)
            <==> !(begin == |rows| && 0 <= end < begin)
  {
    if begin == |rows| && 0 <= end < begin {
      assert |Promised(rows, begin, end)| == |rows| - end - 1;
      assert |Delivered(rows, begin, end)| == |rows| - end;
    }
  }

  /** Row by row: forward requests ascend from `begin`, backward ones descend. */
  lemma PromisedRows<Row>(rows: seq<Row>, begin: nat, end: int, i: nat)
    requires begin < |rows|
    requires i < |Promised(rows, begin, end)|
    ensures var e := ClampEnd(|rows|, end);
            && |Promised(rows, begin, end)| == Abs(e - begin)
            && Promised(rows, begin, end)[i] == rows[if begin < e then begin + i else begin - i]
  {
    hide Promised;
    if begin < ClampEnd(|rows|, end) {
      AscendingRows(rows, begin, end);
    } else {
      DescendingRows(rows, begin, end);
      ReversedSlice(rows, ClampEnd(|rows|, end) + 1, begin + 1, i);
    }
  }

  lemma AscendingRows<Row>(rows: seq<Row>, begin: nat, end: int)
    requires begin < |rows| && begin < ClampEnd(|rows|, end)
    ensures Promised(rows, begin, end) == rows[begin..ClampEnd(|rows|, end)]
  {
  }

  lemma DescendingRows<Row>(rows: seq<Row>, begin: nat, end: int)
    requires begin < |rows| && ClampEnd(|rows|, end) <= begin
    ensures Promised(rows, begin, end) == Reverse(rows[ClampEnd(|rows|, end) + 1..begin + 1])
  {
  }

  lemma ReversedSlice<Row>(rows: seq<Row>, from: nat, to: nat, i: nat)
    requires from <= to <= |rows| && i < to - from
    ensures |Reverse(rows[from..to])| == to - from && Reverse(rows[from..to])[i] == rows[to - 1 - i]
  {
    assert Reverse(rows[from..to])[i] == rows[from..to][to - from - 1 - i];
  }

  class StatelessCursorObject<Row> {
    const cur: Cursor<Row>

    ghost predicate Valid()
      reads this, cur, cur.home
    {
      cur.Valid() && cur.pos != -1
    }

    constructor Create(server: Server<Row>)
      requires server.Valid() && server.pos == 0 && |server.rows| < ALL
      ensures Valid() && fresh(cur) && cur.home == server
    {
      cur := new Cursor<Row>.Declare(server);
    }

    /** Adoption first goes back to the start, to learn the position. */
    constructor Adopt(server: Server<Row>)
      requires server.Valid() && |server.rows| < ALL
      modifies server
      ensures Valid() && fresh(cur) && cur.home == server
    {
      var c := new Cursor<Row>.Adopt(server);
      var _, _ := c.Move(BACKWARD_ALL);
      cur := c;
    }

    method Size() returns (size: int)
      requires Valid()
      modifies cur, cur.home
      ensures Valid() && size == |cur.home.rows|
    {
      size := ObtainSize(cur);
    }

    method Retrieve(begin: int, end: int) returns (result: Result<seq<Row>>)
      requires Valid()
      modifies cur, cur.home
      ensures Valid()
      ensures result == if 0 <= begin <= |cur.home.rows| then Ok(Delivered(cur.home.rows, begin, end)) else OutOfRange
    {
      var size := Size();
      result := RetrieveRows(cur, size, begin, end);
    }
  }

  /** The size is learned by moving to the end, which needs a known position. */
  method ObtainSize<Row>(cur: Cursor<Row>) returns (size: int)
    requires cur.Valid()
    modifies cur, cur.home
    ensures cur.Valid() && (old(cur.pos) != -1 ==> cur.pos != -1)
    ensures size == if old(cur.pos) != -1 then |cur.home.rows| else -2
  {
    if cur.endPos == -1 {
      var _, _ := cur.Move(ALL);
    }
    size := cur.endPos - 1;
  }

  /** Wherever the cursor was left, the rows delivered depend on the request alone. */
  method RetrieveRows<Row>(cur: Cursor<Row>, size: int, begin: int, end: int) returns (result: Result<seq<Row>>)
    requires cur.Valid() && cur.pos != -1 && size == |cur.home.rows|
    modifies cur, cur.home
    ensures cur.Valid() && cur.pos != -1
    ensures result == if 0 <= begin <= size then Ok(Delivered(cur.home.rows, begin, end)) else OutOfRange
  {
    hide Traversed, Unknown, Delivered;
    if begin < 0 || begin > size {
      return OutOfRange;
    }
    var stop := end;
    if stop < -1 {
      stop := -1;
    } else if stop > size {
      stop := size;
    }
    if begin == stop {
      NothingIsDelivered(cur.home.rows, begin, end);
      return Ok([]);
    }
    var direction := if begin < stop then 1 else -1;
    var _, _ := cur.Move((begin - direction) - (cur.pos - 1));
    assert cur.home.pos == Min(if begin < stop then begin else begin + 2, size + 1);
    var rows, _ := cur.Fetch(stop - begin);
    TraversedIsDelivered(cur.home.rows, begin, stop);
    ClampedOnce(cur.home.rows, begin, end);
    result := Ok(rows);
  }

  lemma NothingIsDelivered<Row>(rows: seq<Row>, begin: nat, end: int)
    requires begin <= |rows| && begin == ClampEnd(|rows|, end)
    ensures Delivered(rows, begin, end) == []
  {
  }

  lemma TraversedIsDelivered<Row>(rows: seq<Row>, begin: nat, end: int)
    requires begin <= |rows| && -1 <= end <= |rows| && begin != end
    ensures var start := Min(if begin < end then begin else begin + 2, |rows| + 1);
            var to := Max(Min(start + end - begin, |rows| + 1), 0);
            Traversed(rows, start, to) == Delivered(rows, begin, end)
  {
    hide Traversed, Delivered;
    if begin < end {
      ForwardIsDelivered(rows, begin, end);
    } else if begin < |rows| {
      BackwardIsDelivered(rows, begin, end);
    } else {
      BackwardFromEndIsDelivered(rows, end);
    }
  }

  lemma ClampedOnce<Row>(rows: seq<Row>, begin: nat, end: int)
    requires begin <= |rows|
    ensures Delivered(rows, begin, end) == Delivered(rows, begin, ClampEnd(|rows|, end))
  {
    hide Reverse;
    assert ClampEnd(|rows|, ClampEnd(|rows|, end)) == ClampEnd(|rows|, end);
  }

  lemma ForwardIsDelivered<Row>(rows: seq<Row>, begin: nat, end: int)
    requires begin < end <= |rows|
    ensures Traversed(rows, begin, end) == Delivered(rows, begin, end)
  {
  }

  lemma BackwardIsDelivered<Row>(rows: seq<Row>, begin: nat, end: int)
    requires -1 <= end < begin < |rows|
    ensures Traversed(rows, begin + 2, end + 2) == Delivered(rows, begin, end)
  {
    hide Reverse;
    assert Delivered(rows, begin, end) == Reverse(rows[end + 1..begin + 1]);
    assert Max(end + 2, 1) - 1 == end + 1;
  }

  lemma BackwardFromEndIsDelivered<Row>(rows: seq<Row>, end: int)
    requires -1 <= end < |rows|
    ensures Traversed(rows, |rows| + 1, end + 1) == Delivered(rows, |rows|, end)
  {
    hide Reverse;
    var n := |rows|;
    if end == -1 {
      assert rows[0..n] == rows[Max(0, 1) - 1..n + 1 - 1];
      assert Delivered(rows, n, end) == Reverse(rows[0..n]);
    } else {
      assert rows[end..] == rows[end..n] == rows[Max(end + 1, 1) - 1..n + 1 - 1];
      assert Delivered(rows, n, end) == Reverse(rows[end..]);
    }
  }
}
