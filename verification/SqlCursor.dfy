/** SQL cursors: the server's position in a result set, and the client that
    reconstructs it from row counts alone (sql_cursor.cxx). */
module SqlCursor {

  // ---------------------------------------------------------------------
  // The server
  // ---------------------------------------------------------------------

  // Distances at or beyond these are sent as ALL and BACKWARD ALL.
  const ALL := 0x7FFF_FFFF - 1
  const BACKWARD_ALL := -0x8000_0000 + 1

  datatype Distance = Rows(n: int) | All | BackwardAll

  function StrideString(n: int): Distance {
    if n >= ALL then All
    else if n <= BACKWARD_ALL then BackwardAll
    else Rows(n)
  }

  function Min(a: int, b: int): int { if a <= b then a else b }
  function Max(a: int, b: int): int { if a >= b then a else b }

  /** Position after a FETCH or MOVE. Rows are numbered 1..size; 0 and size+1 are
      the positions before the first and after the last row. */
  function Landing(size: nat, p: nat, d: Distance): (to: nat)
    requires p <= size + 1
    ensures to <= size + 1
  {
    match d
    case All => size + 1
    case BackwardAll => 0
    case Rows(n) => Min(Max(p + n, 0), size + 1)
  }

  /** Number of rows passed between two positions, the starting row excluded. */
  function Passed(size: nat, from: nat, to: nat): (count: nat)
    requires from <= size + 1 && to <= size + 1
  {
    if from <= to then Min(to, size) - Min(from, size)
    else from - Max(to, 1)
  }

  function Reverse<Row>(s: seq<Row>): (r: seq<Row>)
    ensures |r| == |s|
    ensures forall i :: 0 <= i < |s| ==> r[i] == s[|s| - 1 - i]
  {
    seq(|s|, i requires 0 <= i < |s| => s[|s| - 1 - i])
  }

  /** The rows passed between two positions, in the order they are met. */
  function Traversed<Row>(rows: seq<Row>, from: nat, to: nat): (r: seq<Row>)
    requires from <= |rows| + 1 && to <= |rows| + 1
    ensures |r| == Passed(|rows|, from, to)
  {
    if from <= to then rows[Min(from, |rows|)..Min(to, |rows|)]
    else Reverse(rows[Max(to, 1) - 1..from - 1])
  }

  class Server<Row> {
    const rows: seq<Row>
    var pos: nat

    ghost predicate Valid()
      reads this
    {
      pos <= |rows| + 1
    }

    constructor (rows: seq<Row>, pos: nat)
      requires pos <= |rows| + 1
      ensures Valid() && this.rows == rows && this.pos == pos
    {
      this.rows, this.pos := rows, pos;
    }

    method Fetch(d: Distance) returns (result: seq<Row>)
      requires Valid()
      modifies this
      ensures Valid() && pos == Landing(|rows|, old(pos), d)
      ensures result == Traversed(rows, old(pos), pos)
    {
      var to := Landing(|rows|, pos, d);
      result := Traversed(rows, pos, to);
      pos := to;
    }

    /** MOVE reports how many rows FETCH would have returned. */
    method Move(d: Distance) returns (count: nat)
      requires Valid()
      modifies this
      ensures Valid() && pos == Landing(|rows|, old(pos), d)
      ensures count == Passed(|rows|, old(pos), pos)
    {
      var to := Landing(|rows|, pos, d);
      count := Passed(|rows|, pos, to);
      pos := to;
    }
  }

  // ---------------------------------------------------------------------
  // The client's bookkeeping
  // ---------------------------------------------------------------------

  /** m_at_end, m_pos and m_endpos; -1 stands for an unknown position. */
  datatype Book = Book(atEnd: int, pos: int, endPos: int)

  datatype Outcome = Moved(book: Book, displacement: int) | InternalError(book: Book)

  const OWNED := Book(-1, 0, -1)
  const ADOPTED := Book(0, -1, -1)

  function Abs(n: int): nat { if n < 0 then -n else n }

  /** What adjust() makes of `actual` rows where `hoped` were asked for. */
  function Adjusted(b: Book, hoped: int, actual: int): Outcome {
    if actual < 0 then InternalError(b)
    else if hoped == 0 then Moved(b, 0)
    else
      var direction := if hoped < 0 then -1 else 1;
      if actual > Abs(hoped) then InternalError(b)
      else if actual == Abs(hoped) then
        Moved(b.(atEnd := 0, pos := if b.pos >= 0 then b.pos + direction * actual else b.pos),
              direction * actual)
      else
        var steps := if b.atEnd != direction then actual + 1 else actual;
        if direction < 0 && b.pos != -1 && b.pos != steps then InternalError(b)
        else
          var start := if direction < 0 then steps else b.pos;
          var pos := if start >= 0 then start + direction * steps else start;
          var next := Book(direction, pos, b.endPos);
          if direction < 0 then Moved(next, -steps)
          else if b.endPos >= 0 && pos != b.endPos then InternalError(next)
          else Moved(next.(endPos := pos), steps)
  }

  /** The bookkeeping of a cursor whose position is known. */
  ghost predicate Tracks(b: Book, size: nat, p: nat) {
    && p <= size + 1
    && b.pos == p
    && -1 <= b.atEnd <= 1
    && (b.atEnd == -1 <==> p == 0)
    && (b.atEnd == 1 <==> p == size + 1)
    && (b.endPos == -1 || b.endPos == size + 1)
  }

  /** The bookkeeping of an adopted cursor that has not been back to the start. */
  ghost predicate Unknown(b: Book, size: nat, p: nat) {
    && p <= size + 1
    && b.pos == -1 && b.endPos == -1
    && 0 <= b.atEnd <= 1
    && (b.atEnd == 1 ==> p == size + 1)
  }

  /** The server does not pass as many rows as an ALL distance stands for. */
  predicate Countable(size: nat, p: nat, hoped: int) {
    && (hoped >= ALL ==> size - p < hoped)
    && (hoped <= BACKWARD_ALL ==> p - 1 < -hoped)
  }

  /** One move keeps the bookkeeping true exactly when an ALL distance cannot be
      mistaken for a number of rows really passed. */
  lemma AdjustTracks(b: Book, size: nat, p: nat, hoped: int)
    requires Tracks(b, size, p)
    ensures var to := Landing(size, p, StrideString(hoped));
            var o := Adjusted(b, hoped, Passed(size, p, to));
            (o.Moved? && Tracks(o.book, size, to) && o.displacement == to - p)
            <==> Countable(size, p, hoped)
  {
  }

  /** The least table that breaks it: as many rows as ALL stands for. */
  lemma AllRowsCountedAsReached()
    ensures var o := Adjusted(OWNED, ALL, Passed(ALL, 0, Landing(ALL, 0, StrideString(ALL))));
            o == Moved(Book(0, ALL, -1), ALL) && Landing(ALL, 0, StrideString(ALL)) == ALL + 1
  {
  }

  /** The server does not pass more rows than an ALL distance stands for. */
  predicate Bearable(size: nat, p: nat, hoped: int) {
    && (hoped >= ALL ==> size - p <= hoped)
    && (hoped <= BACKWARD_ALL ==> p - 1 <= -hoped)
  }

  /** An adopted cursor claims less, so it bears one row more: it raises no error, and
      what it claims stays true, exactly if no ALL distance is exceeded. It then knows
      its position exactly from the moment it falls back to the start. */
  lemma AdjustUnknown(b: Book, size: nat, p: nat, hoped: int)
    requires Unknown(b, size, p)
    ensures var to := Landing(size, p, StrideString(hoped));
            var count := Passed(size, p, to);
            var o := Adjusted(b, hoped, count);
            && (o.Moved? && (if o.book.pos == -1 then Unknown(o.book, size, to) else Tracks(o.book, size, to))
                <==> Bearable(size, p, hoped))
            && (Bearable(size, p, hoped) ==>
                && (o.book.pos != -1 <==> hoped < 0 && count < -hoped)
                && (o.displacement == to - p
                    <==> Countable(size, p, hoped)
                         && !(b.atEnd == 0 && ((p == 0 && hoped < 0) || (p == size + 1 && hoped > 0)))))
  {
  }

  // ---------------------------------------------------------------------
  // Whole runs
  // ---------------------------------------------------------------------

  /** A run of fetches and moves by the given distances, on both sides. */
  function Run(b: Book, size: nat, p: nat, hops: seq<int>): (Outcome, nat)
    requires p <= size + 1
    decreases |hops|
  {
    if hops == [] then (Moved(b, 0), p)
    else
      var to := Landing(size, p, StrideString(hops[0]));
      var o := Adjusted(b, hops[0], Passed(size, p, to));
      if o.InternalError? then (o, to)
      else
        var (rest, end) := Run(o.book, size, to, hops[1..]);
        (if rest.Moved? then rest.(displacement := o.displacement + rest.displacement) else rest, end)
  }

  /** After every step of the run there was no error, and the bookkeeping is true; the
      displacement is, too, where the position was known. */
  ghost predicate TrueRun(b: Book, size: nat, p: nat, hops: seq<int>)
    requires p <= size + 1
    decreases |hops|
  {
    hops == [] ||
    var to := Landing(size, p, StrideString(hops[0]));
    var o := Adjusted(b, hops[0], Passed(size, p, to));
    && o.Moved?
    && (if o.book.pos == -1 then b.pos == -1 && Unknown(o.book, size, to) else Tracks(o.book, size, to))
    && (b.pos != -1 ==> o.displacement == to - p)
    && TrueRun(o.book, size, to, hops[1..])
  }

  /** No step of the run goes as far as an ALL distance stands for; or, before the
      position is known, further. */
  predicate Fits(known: bool, size: nat, p: nat, hops: seq<int>)
    requires p <= size + 1
    decreases |hops|
  {
    hops == [] ||
    var to := Landing(size, p, StrideString(hops[0]));
    && (if known then Countable(size, p, hops[0]) else Bearable(size, p, hops[0]))
    && Fits(known || (hops[0] < 0 && Passed(size, p, to) < -hops[0]), size, to, hops[1..])
  }

  /** The bookkeeping is true throughout exactly the runs that fit, on owned and on
      adopted cursors. */
  lemma {:induction false} TrueRunIff(b: Book, size: nat, p: nat, hops: seq<int>)
    requires if b.pos == -1 then Unknown(b, size, p) else Tracks(b, size, p)
    ensures TrueRun(b, size, p, hops) <==> Fits(b.pos != -1, size, p, hops)
    decreases |hops|
  {
    if hops != [] {
      var to := Landing(size, p, StrideString(hops[0]));
      var o := Adjusted(b, hops[0], Passed(size, p, to));
      if b.pos == -1 {
        AdjustUnknown(b, size, p, hops[0]);
      } else {
        AdjustTracks(b, size, p, hops[0]);
      }
      if (if b.pos != -1 then Countable(size, p, hops[0]) else Bearable(size, p, hops[0])) {
        TrueRunIff(o.book, size, to, hops[1..]);
      }
    }
  }

  /** With fewer rows than ALL stands for, every run fits. */
  lemma {:induction false} SmallTablesFit(known: bool, size: nat, p: nat, hops: seq<int>)
    requires p <= size + 1 && size < ALL
    ensures Fits(known, size, p, hops)
    decreases |hops|
  {
    if hops != [] {
      var to := Landing(size, p, StrideString(hops[0]));
      SmallTablesFit(known || (hops[0] < 0 && Passed(size, p, to) < -hops[0]), size, to, hops[1..]);
    }
  }

  /** In every run that fits on an owned cursor the bookkeeping is true at the end, the
      displacements add up to the true one, and no internal error is raised. */
  lemma {:induction false} OwnedRun(b: Book, size: nat, p: nat, hops: seq<int>)
    requires Tracks(b, size, p) && Fits(true, size, p, hops)
    ensures var (o, end) := Run(b, size, p, hops);
            o.Moved? && Tracks(o.book, size, end) && o.displacement == end - p
    decreases |hops|
  {
    if hops != [] {
      AdjustTracks(b, size, p, hops[0]);
      var to := Landing(size, p, StrideString(hops[0]));
      OwnedRun(Adjusted(b, hops[0], Passed(size, p, to)).book, size, to, hops[1..]);
    }
  }

  /** In every run that fits on an adopted cursor no internal error is raised, and its
      position is either unknown or true. */
  lemma {:induction false} AdoptedRun(b: Book, size: nat, p: nat, hops: seq<int>)
    requires Unknown(b, size, p) && Fits(false, size, p, hops)
    ensures var (o, end) := Run(b, size, p, hops);
            o.Moved? && if o.book.pos == -1 then Unknown(o.book, size, end) else Tracks(o.book, size, end)
    decreases |hops|
  {
    if hops != [] {
      AdjustUnknown(b, size, p, hops[0]);
      var to := Landing(size, p, StrideString(hops[0]));
      var next := Adjusted(b, hops[0], Passed(size, p, to)).book;
      if next.pos == -1 {
        AdoptedRun(next, size, to, hops[1..]);
      } else {
        OwnedRun(next, size, to, hops[1..]);
      }
    }
  }

  // ---------------------------------------------------------------------
  // The cursor object
  // ---------------------------------------------------------------------

  class Cursor<Row> {
    const home: Server<Row>
    var atEnd: int
    var pos: int
    var endPos: int

    ghost function State(): Book
      reads this
    {
      Book(atEnd, pos, endPos)
    }

    ghost predicate Valid()
      reads this, home
    {
      && home.Valid() && |home.rows| < ALL
      && if pos == -1 then Unknown(State(), |home.rows|, home.pos)
         else Tracks(State(), |home.rows|, home.pos)
    }

    /** A cursor just declared stands before the first row. */
    constructor Declare(server: Server<Row>)
      requires server.Valid() && server.pos == 0 && |server.rows| < ALL
      ensures Valid() && home == server && State() == OWNED
    {
      home := server;
      atEnd, pos, endPos := -1, 0, -1;
    }

    /** An existing cursor may stand anywhere. */
    constructor Adopt(server: Server<Row>)
      requires server.Valid() && |server.rows| < ALL
      ensures Valid() && home == server && State() == ADOPTED
    {
      home := server;
      atEnd, pos, endPos := 0, -1, -1;
    }

    method Adjust(hoped: int, actual: int) returns (raised: bool, displacement: int)
      modifies this
      ensures var o := Adjusted(old(State()), hoped, actual);
              raised == o.InternalError? && State() == o.book && (!raised ==> displacement == o.displacement)
    {
      raised, displacement := false, 0;
      if actual < 0 {
        return true, 0;
      }
      if hoped == 0 {
        return;
      }
      var direction := if hoped < 0 then -1 else 1;
      var hitEnd := false;
      var steps := actual;
      if steps != Abs(hoped) {
        if steps > Abs(hoped) {
          return true, 0;
        }
        if atEnd != direction {
          steps := steps + 1;
        }
        if direction > 0 {
          hitEnd := true;
        } else if pos == -1 {
          pos := steps;
        } else if pos != steps {
          return true, 0;
        }
        atEnd := direction;
      } else {
        atEnd := 0;
      }
      if pos >= 0 {
        pos := pos + direction * steps;
      }
      if hitEnd {
        if endPos >= 0 && pos != endPos {
          return true, 0;
        }
        endPos := pos;
      }
      displacement := direction * steps;
    }

    /** FETCH returns exactly the rows passed, and the position stays true. */
    method Fetch(rows: int) returns (result: seq<Row>, displacement: int)
      requires Valid()
      modifies this, home
      ensures Valid() && (old(pos) != -1 ==> pos != -1)
      ensures home.pos == if rows == 0 then old(home.pos) else Landing(|home.rows|, old(home.pos), StrideString(rows))
      ensures result == Traversed(home.rows, old(home.pos), home.pos)
      ensures old(pos) != -1 ==> displacement == home.pos - old(home.pos)
    {
      if rows == 0 {
        return [], 0;
      }
      TracksOrUnknown(State(), |home.rows|, home.pos, rows);
      result := home.Fetch(StrideString(rows));
      var raised;
      raised, displacement := Adjust(rows, |result|);
      assert !raised;
    }

    /** MOVE reports the number of rows passed, and the position stays true. */
    method Move(rows: int) returns (count: nat, displacement: int)
      requires Valid()
      modifies this, home
      ensures Valid() && (old(pos) != -1 ==> pos != -1)
      ensures home.pos == if rows == 0 then old(home.pos) else Landing(|home.rows|, old(home.pos), StrideString(rows))
      ensures count == Passed(|home.rows|, old(home.pos), home.pos)
      ensures old(pos) != -1 ==> displacement == home.pos - old(home.pos)
      ensures rows <= BACKWARD_ALL ==> pos == 0
      ensures rows >= ALL ==> endPos == if old(pos) == -1 then -1 else |home.rows| + 1
    {
      if rows == 0 {
        return 0, 0;
      }
      TracksOrUnknown(State(), |home.rows|, home.pos, rows);
      count := home.Move(StrideString(rows));
      var raised;
      raised, displacement := Adjust(rows, count);
      assert !raised;
    }
  }

  lemma TracksOrUnknown(b: Book, size: nat, p: nat, hoped: int)
    requires size < ALL
    requires if b.pos == -1 then Unknown(b, size, p) else Tracks(b, size, p)
    ensures var to := Landing(size, p, StrideString(hoped));
            var o := Adjusted(b, hoped, Passed(size, p, to));
            && o.Moved?
            && (if o.book.pos == -1 then Unknown(o.book, size, to) else Tracks(o.book, size, to))
            && (b.pos != -1 ==> o.book.pos != -1 && o.displacement == to - p)
  {
    if b.pos == -1 {
      AdjustUnknown(b, size, p, hoped);
    } else {
      AdjustTracks(b, size, p, hoped);
    }
  }
}
