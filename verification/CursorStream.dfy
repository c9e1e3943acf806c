/** icursorstream and its iterators (cursor.cxx): one forward cursor shared by any
    number of registered iterators, each of which must see its own block of rows. */
module CursorStream {
  import opened SqlCursor

  /** The rows an iterator at position pos stands for. */
  function Block<Row>(rows: seq<Row>, pos: nat, stride: nat): seq<Row> {
    rows[Min(pos, |rows|)..Min(pos + stride, |rows|)]
  }

  ghost predicate OnGrid(pos: int, stride: int)
    requires stride >= 1
  {
    pos % stride == 0
  }

  lemma GridGap(a: int, b: int, stride: int)
    requires stride >= 1 && OnGrid(a, stride) && OnGrid(b, stride) && a < b
    ensures a + stride <= b
  {
    var i, j := a / stride, b / stride;
    assert a == stride * i && b == stride * j;
    Scaled(i, j, stride);
  }

  lemma Scaled(i: int, j: int, stride: int)
    requires stride >= 1
    ensures i <= j ==> stride * i <= stride * j
    ensures i < j ==> stride * i + stride <= stride * j
    ensures j <= i ==> stride * j <= stride * i
  {
    if i < j {
      ScaledUp(i, j, stride);
    } else if j < i {
      ScaledUp(j, i, stride);
    }
  }

  lemma {:induction false} ScaledUp(i: int, j: int, stride: int)
    requires stride >= 1 && i < j
    ensures stride * i + stride <= stride * j
    decreases j - i
  {
    assert stride * (j - 1) + stride == stride * j;
    if i < j - 1 {
      ScaledUp(i, j - 1, stride);
    }
  }

  lemma GridStep(a: int, n: nat, stride: int)
    requires stride >= 1 && OnGrid(a, stride)
    ensures OnGrid(a + n * stride, stride)
    ensures n * stride >= 0 && (n >= 1 ==> n * stride >= stride)
  {
    var i := a / stride;
    assert a == stride * i;
    assert a + n * stride == stride * (i + n);
    MultipleOnGrid(i + n, stride);
    Scaled(0, n, stride);
  }

  lemma MultipleOnGrid(i: int, stride: int)
    requires stride >= 1
    ensures OnGrid(stride * i, stride)
  {
    var q, r := stride * i / stride, stride * i % stride;
    assert stride * i == stride * q + r;
    Scaled(i, q, stride);
    Scaled(q, i, stride);
  }

  // ---------------------------------------------------------------------
  // The to-do list of service_iterators, a multimap from position to iterator
  // ---------------------------------------------------------------------

  ghost predicate Sorted<T>(todo: seq<(int, T)>) {
    forall i, j :: 0 <= i < j < |todo| ==> todo[i].0 <= todo[j].0
  }

  /** Where a multimap inserts: after all entries with the same or a smaller key. */
  function UpperBound<T>(todo: seq<(int, T)>, key: int): (k: nat)
    requires Sorted(todo)
    ensures k <= |todo|
    ensures forall i :: 0 <= i < k ==> todo[i].0 <= key
    ensures forall i :: k <= i < |todo| ==> todo[i].0 > key
  {
    if todo == [] then 0
    else if todo[|todo| - 1].0 <= key then |todo|
    else UpperBound(todo[..|todo| - 1], key)
  }

  function Insert<T>(todo: seq<(int, T)>, key: int, value: T): (r: seq<(int, T)>)
    requires Sorted(todo)
    ensures Sorted(r) && |r| == |todo| + 1
  {
    var k := UpperBound(todo, key);
    todo[..k] + [(key, value)] + todo[k..]
  }

  // ---------------------------------------------------------------------
  // Stream and iterators
  // ---------------------------------------------------------------------

  class Stream<Row(==)> {
    const cur: Cursor<Row>
    var stride: int
    var realpos: int
    var reqpos: int
    var iterators: Iterator?<Row>
    var done: bool
    ghost var Registered: seq<Iterator<Row>>

    /** The registered iterators form a doubly linked list. */
    ghost predicate Linked()
      reads this, Registered
    {
      && (forall i, j :: 0 <= i < j < |Registered| ==> Registered[i] != Registered[j])
      && iterators == (if Registered == [] then null else Registered[0])
      && (forall i {:trigger Registered[i].stream} :: 0 <= i < |Registered| ==> Registered[i].stream == this)
      && (forall i {:trigger Registered[i].prev} :: 0 <= i < |Registered| ==>
            Registered[i].prev == (if i == 0 then null else Registered[i - 1]))
      && (forall i {:trigger Registered[i].next} :: 0 <= i < |Registered| ==>
            Registered[i].next == (if i + 1 == |Registered| then null else Registered[i + 1]))
    }

    /** Where the stream thinks it is, against where the server is. */
    ghost predicate Positioned()
      reads this, cur, cur.home
    {
      && cur.Valid() && cur.pos != -1
      && stride >= 1
      && 0 <= reqpos && OnGrid(reqpos, stride)
      && realpos == Min(cur.home.pos, |cur.home.rows|)
      && (OnGrid(realpos, stride) || realpos == |cur.home.rows|)
      && realpos <= reqpos + stride
    }

    /** An iterator the stream has passed holds its block; one ahead holds nothing. */
    ghost predicate ServedOne(it: Iterator<Row>)
      requires stride >= 1
      reads this, cur, cur.home, it
    {
      && 0 <= it.pos <= reqpos && OnGrid(it.pos, stride)
      && it.here == if it.pos < realpos then Block(cur.home.rows, it.pos, stride) else []
    }

    ghost predicate Served()
      requires stride >= 1
      reads this, cur, cur.home, Registered
    {
      forall it :: it in Registered ==> ServedOne(it)
    }

    ghost predicate Valid()
      reads this, cur, cur.home, Registered
    {
      Linked() && Positioned() && Served()
    }

    constructor (server: Server<Row>, stride: int)
      requires server.Valid() && server.pos == 0 && |server.rows| < ALL
      requires stride >= 1
      ensures Valid() && fresh(cur) && cur.home == server && this.stride == stride && Registered == []
      ensures realpos == 0 && reqpos == 0
    {
      cur := new Cursor<Row>.Declare(server);
      this.stride := stride;
      realpos, reqpos, iterators, done := 0, 0, null, false;
      Registered := [];
    }

    method FetchBlock() returns (r: seq<Row>)
      requires Positioned()
      modifies this`realpos, this`done, cur, cur.home
      ensures cur.Valid() && cur.pos != -1 && realpos == Min(cur.home.pos, |cur.home.rows|)
      ensures r == Block(cur.home.rows, old(realpos), stride)
      ensures realpos == old(realpos) + |r|
      ensures done == (old(done) || r == [])
    {
      var displacement;
      r, displacement := cur.Fetch(stride);
      realpos := realpos + |r|;
      if r == [] {
        done := true;
      }
    }

    method Ignore(n: nat)
      requires Positioned()
      modifies this`realpos, this`done, cur, cur.home
      ensures cur.Valid() && cur.pos != -1 && realpos == Min(cur.home.pos, |cur.home.rows|)
      ensures realpos == Min(old(realpos) + n, |cur.home.rows|)
      ensures done == (old(done) || old(realpos) + n > |cur.home.rows|)
    {
      var offset, displacement := cur.Move(n);
      realpos := realpos + offset;
      if offset < n {
        done := true;
      }
    }

    method Forward(n: nat) returns (p: int)
      requires Positioned()
      modifies this`reqpos
      ensures Positioned() && reqpos == old(reqpos) + n * stride && p == reqpos
    {
      GridStep(reqpos, n, stride);
      reqpos := reqpos + n * stride;
      p := reqpos;
    }

    method InsertIterator(i: Iterator<Row>)
      requires Linked() && i !in Registered
      requires i.stream == this && i.prev == null
      modifies this`iterators, this`Registered, i`next
      modifies set it | it in Registered :: it`prev
      ensures Linked() && Registered == [i] + old(Registered)
    {
      i.next := iterators;
      if iterators != null {
        var head: Iterator<Row> := iterators;
        assert head == Registered[0] && head in old(Registered);
        head.prev := i;
      }
      iterators := i;
      Registered := [i] + Registered;
    }

    method RemoveIterator(i: Iterator<Row>)
      requires Linked() && i in Registered
      modifies this`iterators, this`Registered, Registered
      ensures Linked() && i !in Registered && i.prev == null && i.next == null
      ensures exists k :: 0 <= k < |old(Registered)| && old(Registered)[k] == i
                          && Registered == old(Registered)[..k] + old(Registered)[k + 1..]
      ensures forall it :: it in old(Registered) ==>
                it.here == old(it.here) && it.pos == old(it.pos) && it.stream == old(it.stream)
    {
      ghost var k :| 0 <= k < |Registered| && Registered[k] == i;
      ghost var was := Registered;
      assert i.prev == (if k == 0 then null else was[k - 1]);
      assert i.next == (if k + 1 == |was| then null else was[k + 1]);
      if i == iterators {
        iterators := i.next;
        if iterators != null {
          iterators.prev := null;
        }
      } else {
        var prev, next := i.prev, i.next;
        prev.next := next;
        if next != null {
          next.prev := prev;
        }
      }
      i.prev := null;
      i.next := null;
      Registered := was[..k] + was[k + 1..];
      assert forall m :: 0 <= m < |was| && m != k ==>
        && was[m].stream == this
        && was[m].prev == (if m == 0 then null
                           else if m == k + 1 then (if k == 0 then null else was[k - 1]) else was[m - 1])
        && was[m].next == (if m + 1 == |was| then null
                           else if m + 1 == k then (if k + 1 == |was| then null else was[k + 1]) else was[m + 1]);
      Closed(was, k);
    }

    lemma StillIn(was: seq<Iterator<Row>>, now: seq<Iterator<Row>>, i: Iterator<Row>)
      requires i !in now
      requires exists k :: 0 <= k < |was| && was[k] == i && now == was[..k] + was[k + 1..]
      ensures forall it :: it in now <==> it in was && it != i
    {
      var k :| 0 <= k < |was| && was[k] == i && now == was[..k] + was[k + 1..];
      assert was == was[..k] + [i] + was[k + 1..];
    }

    /** The list with one element bridged over is the list without it. */
    lemma Closed(was: seq<Iterator<Row>>, k: nat)
      requires k < |was| && Registered == was[..k] + was[k + 1..]
      requires forall i, j :: 0 <= i < j < |was| ==> was[i] != was[j]
      requires iterators == (if k > 0 then was[0] else if |was| > 1 then was[1] else null)
      requires forall m {:trigger was[m].stream} :: 0 <= m < |was| && m != k ==> was[m].stream == this
      requires forall m {:trigger was[m].prev} :: 0 <= m < |was| && m != k ==>
                 was[m].prev == (if m == 0 then null
                                 else if m == k + 1 then (if k == 0 then null else was[k - 1]) else was[m - 1])
      requires forall m {:trigger was[m].next} :: 0 <= m < |was| && m != k ==>
                 was[m].next == (if m + 1 == |was| then null
                                 else if m + 1 == k then (if k + 1 == |was| then null else was[k + 1]) else was[m + 1])
      ensures Linked() && was[k] !in Registered
    {
      forall j | 0 <= j < |Registered|
        ensures Registered[j].stream == this
        ensures Registered[j].prev == (if j == 0 then null else Registered[j - 1])
        ensures Registered[j].next == (if j + 1 == |Registered| then null else Registered[j + 1])
      {
        var m := if j < k then j else j + 1;
        assert Registered[j] == was[m];
        if j + 1 < |Registered| { assert Registered[j + 1] == was[if j + 1 < k then j + 1 else j + 2]; }
        if j > 0 { assert Registered[j - 1] == was[if j - 1 < k then j - 1 else j]; }
      }
    }

    /** Registering an iterator that is already served keeps the stream valid. */
    method Register(i: Iterator<Row>)
      requires Valid() && i !in Registered
      requires i.stream == this && i.prev == null && ServedOne(i)
      modifies this`iterators, this`Registered, i`next
      modifies set it | it in Registered :: it`prev
      ensures Valid() && Registered == [i] + old(Registered)
    {
      hide OnGrid, Block;
      ghost var others := Registered;
      InsertIterator(i);
      forall it | it in Registered
        ensures ServedOne(it)
      {
        if it != i { assert it in others && old(ServedOne(it)); }
      }
    }

    method Unregister(i: Iterator<Row>)
      requires Valid() && i in Registered
      modifies this`iterators, this`Registered, Registered
      ensures Valid() && i !in Registered && i.prev == null && i.next == null
      ensures forall it :: it in Registered <==> it in old(Registered) && it != i
      ensures forall it :: it in old(Registered) ==>
                it.here == old(it.here) && it.pos == old(it.pos) && it.stream == old(it.stream)
    {
      hide OnGrid, Block;
      ghost var was := Registered;
      RemoveIterator(i);
      StillIn(was, Registered, i);
      forall it | it in Registered
        ensures ServedOne(it)
      {
        assert it in old(Registered) && old(ServedOne(it));
      }
    }

    ghost predicate Due(it: Iterator<Row>, topos: int)
      reads this, it
    {
      realpos <= it.pos <= topos
    }

    /** The iterators to serve: those between the read position and topos. */
    ghost predicate ToDo(todo: seq<(int, Iterator<Row>)>, topos: int)
      reads this, Registered
    {
      && Sorted(todo)
      && (forall j :: 0 <= j < |todo| ==>
            todo[j].1 in Registered && todo[j].0 == todo[j].1.pos && Due(todo[j].1, topos))
      && (forall it :: it in Registered && Due(it, topos) ==> Listed<Iterator<Row>>(todo, it))
    }

    method CollectIterators(topos: int) returns (todo: seq<(int, Iterator<Row>)>)
      requires Linked()
      ensures ToDo(todo, topos)
    {
      hide Insert, UpperBound;
      todo := [];
      var i := iterators;
      ghost var k := 0;
      while i != null
        invariant 0 <= k <= |Registered|
        invariant i == if k == |Registered| then null else Registered[k]
        invariant Sorted(todo)
        invariant forall j :: 0 <= j < |todo| ==>
                    todo[j].1 in Registered && todo[j].0 == todo[j].1.pos && Due(todo[j].1, topos)
        invariant forall m :: 0 <= m < k && Due(Registered[m], topos) ==> Listed<Iterator<Row>>(todo, Registered[m])
        decreases |Registered| - k
      {
        var ipos := i.pos;
        if ipos >= realpos && ipos <= topos {
          ghost var was := todo;
          var it: Iterator<Row> := i;
          InsertLists<Iterator<Row>>(todo, ipos, it);
          todo := Insert<Iterator<Row>>(todo, ipos, it);
          forall m | 0 <= m < k && Due(Registered[m], topos)
            ensures Listed<Iterator<Row>>(todo, Registered[m])
          {
            InsertKeeps<Iterator<Row>>(was, ipos, it, Registered[m]);
          }
        }
        i := i.next;
        k := k + 1;
      }
    }

    /** Hands one block to every listed iterator that waits for it. */
    method FillAll(todo: seq<(int, Iterator<Row>)>, start: nat, r: seq<Row>) returns (i: nat)
      requires start < |todo| && Sorted(todo)
      requires forall j :: 0 <= j < |todo| ==> todo[j].1 in Registered && todo[j].0 == todo[j].1.pos
      modifies set it | it in Registered :: it`here
      ensures start < i <= |todo| && (i < |todo| ==> todo[i].0 > todo[start].0)
      ensures forall j :: start <= j < i ==> todo[j].0 == todo[start].0 && todo[j].1.here == r
      ensures forall it :: it in Registered ==>
                it.here == old(it.here) || (it.here == r && it.pos == todo[start].0)
    {
      var readpos := todo[start].0;
      i := start;
      while i < |todo| && todo[i].0 == readpos
        invariant start <= i <= |todo|
        invariant forall j :: start <= j < i ==> todo[j].0 == readpos && todo[j].1.here == r
        invariant forall it :: it in Registered ==>
                    it.here == old(it.here) || (it.here == r && it.pos == readpos)
      {
        todo[i].1.Fill(r);
        i := i + 1;
      }
    }

    /** The rest of the to-do list covers every iterator whose rows are still
        ahead of the read position, and is itself ahead of it. */
    ghost predicate Remaining(todo: seq<(int, Iterator<Row>)>, i: nat, topos: int)
      reads this, cur, cur.home, Registered
    {
      && i <= |todo| && Sorted(todo)
      && (forall j :: 0 <= j < |todo| ==>
            todo[j].1 in Registered && todo[j].0 == todo[j].1.pos && todo[j].0 <= topos)
      && (i < |todo| ==> realpos <= todo[i].0)
      && (forall it :: it in Registered && Due(it, topos) && it.pos < |cur.home.rows| ==>
            Listed<Iterator<Row>>(todo[i..], it))
    }

    /** Skips to a position no iterator before it still needs, and reads its block. */
    method SkipAndFetch(readpos: int) returns (r: seq<Row>)
      requires Positioned() && OnGrid(readpos, stride) && realpos <= readpos <= reqpos
      modifies this`realpos, this`done, cur, cur.home
      ensures Positioned() && r == Block(cur.home.rows, readpos, stride)
      ensures realpos == Min(readpos + stride, |cur.home.rows|)
      ensures realpos >= old(realpos)
    {
      if readpos > realpos {
        Ignore(readpos - realpos);
      }
      r := FetchBlock();
      GridStep(readpos, 1, stride);
    }

    /** Reads the next listed block and hands it out. */
    method ServeNext(todo: seq<(int, Iterator<Row>)>, start: nat, topos: int) returns (i: nat)
      requires Positioned() && Served() && Remaining(todo, start, topos) && start < |todo| && topos <= reqpos
      modifies this`realpos, this`done, cur, cur.home
      modifies set it | it in Registered :: it`here
      ensures Positioned() && Served() && Remaining(todo, i, topos) && start < i
    {
      hide OnGrid, Block;
      var readpos := todo[start].0;
      assert ServedOne(todo[start].1);
      var r := SkipAndFetch(readpos);
      ghost var wasAt := old(realpos);
      i := FillAll(todo, start, r);
      assert forall it :: it in Registered ==> old(ServedOne(it));
      assert forall it :: it in Registered && Due(it, topos) ==> old(Due(it, topos));
      StillServed(todo, start, i, topos, wasAt);
      StillRemaining(todo, start, i, topos);
    }

    /** Nobody is passed by: who waited inside the block stood at its start. */
    lemma StillServed(todo: seq<(int, Iterator<Row>)>, start: nat, i: nat, topos: int, wasAt: int)
      requires start < i <= |todo| && Sorted(todo) && stride >= 1
      requires 0 <= todo[start].0 && OnGrid(todo[start].0, stride)
      requires forall j :: 0 <= j < |todo| ==> todo[j].0 == todo[j].1.pos && todo[j].0 <= topos <= reqpos
      requires forall j :: start <= j < i ==> todo[j].1.here == Block(cur.home.rows, todo[start].0, stride)
      requires i < |todo| ==> todo[start].0 < todo[i].0
      requires forall it :: it in Registered ==> 0 <= it.pos <= reqpos && OnGrid(it.pos, stride)
      requires wasAt <= todo[start].0 && realpos == Min(todo[start].0 + stride, |cur.home.rows|)
      requires forall it :: it in Registered && it.pos < wasAt ==> it.here == Block(cur.home.rows, it.pos, stride)
      requires forall it :: it in Registered && wasAt <= it.pos ==>
                 it.here == [] || (it.pos == todo[start].0 && it.here == Block(cur.home.rows, it.pos, stride))
      requires forall it :: it in Registered && wasAt <= it.pos <= topos && it.pos < |cur.home.rows| ==>
                 Listed<Iterator<Row>>(todo[start..], it)
      ensures Served()
    {
      hide OnGrid, Block;
      forall it | it in Registered
        ensures ServedOne(it)
      {
        if wasAt <= it.pos < realpos {
          var j := Waits(todo, start, topos, it, stride, realpos);
        }
        if |cur.home.rows| <= it.pos { BlockPastEnd(cur.home.rows, it.pos, stride); }
      }
    }

    /** Once a block is handed out, what is left of the list still covers everyone. */
    lemma StillRemaining(todo: seq<(int, Iterator<Row>)>, start: nat, i: nat, topos: int)
      requires start < i <= |todo| && Sorted(todo) && stride >= 1
      requires forall j :: 0 <= j < |todo| ==>
                 todo[j].1 in Registered && todo[j].0 == todo[j].1.pos && todo[j].0 <= topos
      requires forall j :: start <= j < i ==> todo[j].0 == todo[start].0
      requires i < |todo| ==> todo[start].0 < todo[i].0
      requires forall it :: it in Registered ==> OnGrid(it.pos, stride)
      requires realpos == Min(todo[start].0 + stride, |cur.home.rows|)
      requires forall it :: it in Registered && Due(it, topos) && it.pos < |cur.home.rows| ==>
                 Listed<Iterator<Row>>(todo[start..], it)
      ensures Remaining(todo, i, topos)
    {
      hide OnGrid;
      if i < |todo| {
        GridGap(todo[start].0, todo[i].0, stride);
      }
      forall it | it in Registered && Due(it, topos) && it.pos < |cur.home.rows|
        ensures Listed<Iterator<Row>>(todo[i..], it)
      {
        var m :| 0 <= m < |todo[start..]| && todo[start..][m].1 == it;
        assert todo[i..][start + m - i].1 == it;
      }
    }

    lemma NothingDue(topos: int)
      requires stride >= 1 && Served() && topos < realpos
      ensures forall it :: it in Registered && it.pos <= topos ==> it.here == Block(cur.home.rows, it.pos, stride)
    {
      assert forall it :: it in Registered ==> ServedOne(it);
    }

    lemma AllRemain(todo: seq<(int, Iterator<Row>)>, topos: int)
      requires ToDo(todo, topos)
      ensures Remaining(todo, 0, topos)
    {
      assert todo[0..] == todo;
    }

    /** With nothing left to serve, everyone up to topos holds its block. */
    lemma AllServed(todo: seq<(int, Iterator<Row>)>, topos: int)
      requires stride >= 1 && Served() && Remaining(todo, |todo|, topos)
      ensures forall it :: it in Registered && it.pos <= topos ==> it.here == Block(cur.home.rows, it.pos, stride)
    {
      hide OnGrid, Block;
      forall it | it in Registered && it.pos <= topos
        ensures it.here == Block(cur.home.rows, it.pos, stride)
      {
        assert ServedOne(it);
        assert todo[|todo|..] == [];
        if realpos <= it.pos { BlockPastEnd(cur.home.rows, it.pos, stride); }
      }
    }

    /** Reads far enough for every iterator up to topos, skipping nobody's block. */
    method ServiceIterators(topos: int)
      requires Valid() && topos <= reqpos
      modifies this`realpos, this`done, cur, cur.home
      modifies set it | it in Registered :: it`here
      ensures Valid()
      ensures forall it :: it in Registered && it.pos <= topos ==> it.here == Block(cur.home.rows, it.pos, stride)
    {
      hide OnGrid, Block, ToDo, Served;
      if topos < realpos {
        NothingDue(topos);
        return;
      }
      var todo := CollectIterators(topos);
      AllRemain(todo, topos);
      var i := 0;
      while i < |todo|
        invariant Linked() && Positioned() && Served() && Remaining(todo, i, topos)
        decreases |todo| - i
      {
        i := ServeNext(todo, i, topos);
      }
      AllServed(todo, topos);
    }
  }

  lemma BlockPastEnd<Row>(rows: seq<Row>, pos: nat, stride: nat)
    requires |rows| <= pos
    ensures Block(rows, pos, stride) == []
  {
  }

  /** An iterator still waiting inside the block just read stands exactly at its start. */
  lemma Waits<Row>(todo: seq<(int, Iterator<Row>)>, start: nat, topos: int,
                   it: Iterator<Row>, stride: int, realpos: int) returns (j: nat)
    requires start < |todo| && Sorted(todo) && stride >= 1 && todo[start].0 <= topos
    requires forall j :: 0 <= j < |todo| ==> todo[j].0 == todo[j].1.pos
    requires it.pos <= topos ==> Listed<Iterator<Row>>(todo[start..], it)
    requires OnGrid(it.pos, stride) && OnGrid(todo[start].0, stride)
    requires it.pos < realpos <= todo[start].0 + stride
    ensures start <= j < |todo| && todo[j].1 == it && todo[j].0 == todo[start].0 == it.pos
  {
    var readpos := todo[start].0;
    if readpos < it.pos { GridGap(readpos, it.pos, stride); }
    var m :| 0 <= m < |todo[start..]| && todo[start..][m].1 == it;
    j := start + m;
  }

  ghost predicate Listed<T>(todo: seq<(int, T)>, it: T) {
    exists j :: 0 <= j < |todo| && todo[j].1 == it
  }

  lemma InsertLists<T>(todo: seq<(int, T)>, key: int, value: T)
    requires Sorted(todo)
    ensures var r := Insert(todo, key, value);
            && (forall j :: 0 <= j < |r| ==> r[j] == (key, value) || r[j] in todo)
            && Listed(r, value)
  {
    assert Insert(todo, key, value)[UpperBound(todo, key)].1 == value;
  }

  lemma InsertKeeps<T>(todo: seq<(int, T)>, key: int, value: T, it: T)
    requires Sorted(todo) && Listed(todo, it)
    ensures Listed(Insert(todo, key, value), it)
  {
    var u := UpperBound(todo, key);
    var j :| 0 <= j < |todo| && todo[j].1 == it;
    assert Insert(todo, key, value)[if j < u then j else j + 1].1 == it;
  }

  class Iterator<Row(==)> {
    var stream: Stream?<Row>
    var here: seq<Row>
    var pos: int
    var prev: Iterator?<Row>
    var next: Iterator?<Row>

    /** An iterator on no stream is an end marker and never holds rows. */
    constructor End()
      ensures stream == null && here == [] && prev == null && next == null
    {
      stream, here, pos, prev, next := null, [], 0, null, null;
    }

    /** A new iterator starts at the stream's requested position. If the stream has
        already read past it, its rows are lost to it: the stream stays valid
        exactly when it has not. */
    constructor OnStream(s: Stream<Row>)
      requires s.Valid()
      modifies s`iterators, s`Registered, s`reqpos
      modifies set it | it in s.Registered :: it`prev
      ensures s.Linked() && s.Positioned() && s.Registered == [this] + old(s.Registered)
      ensures pos == s.reqpos == old(s.reqpos) && stream == s
      ensures s.Served() <==> s.realpos <= s.reqpos
    {
      stream, here, prev, next := s, [], null, null;
      pos := s.reqpos;
      new;
      var p := s.Forward(0);
      pos := p;
      s.InsertIterator(this);
      assert this in s.Registered;
      if s.reqpos < s.realpos {
        assert |Block(s.cur.home.rows, pos, s.stride)| > 0;
        assert !s.ServedOne(this);
      } else {
        assert s.ServedOne(this);
      }
    }

    /** A copy shares position and rows, and is served from then on like any other. */
    constructor Copy(rhs: Iterator<Row>)
      requires rhs.stream != null ==> rhs.stream.Valid() && rhs in rhs.stream.Registered
      modifies (if rhs.stream == null then {} else {rhs.stream})`iterators
      modifies (if rhs.stream == null then {} else {rhs.stream})`Registered
      modifies if rhs.stream == null then {} else set it | it in rhs.stream.Registered :: it`prev
      ensures stream == rhs.stream && here == rhs.here && pos == rhs.pos
      ensures stream != null ==>
                && stream.Valid() && stream.Registered == [this] + old(rhs.stream.Registered)
                && stream.reqpos == old(rhs.stream.reqpos) && stream.stride == old(rhs.stream.stride)
    {
      stream, here, pos, prev, next := rhs.stream, rhs.here, rhs.pos, null, null;
      new;
      hide OnGrid, Block;
      if stream != null {
        assert stream.ServedOne(rhs);
        stream.Register(this);
      }
    }

    /** operator++ and operator+=: forward by n strides of the stream's requested
        position, whatever this iterator's own position was. */
    method Advance(n: int) returns (ok: bool)
      requires stream != null && stream.Valid() && this in stream.Registered
      modifies this`pos, this`here, stream`reqpos
      ensures stream.Valid() && ok == (n >= 0)
      ensures n > 0 ==> pos == stream.reqpos == old(stream.reqpos) + n * stream.stride && here == []
      ensures n <= 0 ==> pos == old(pos) && here == old(here) && stream.reqpos == old(stream.reqpos)
    {
      hide OnGrid, Block;
      if n <= 0 {
        return n == 0;
      }
      GridStep(stream.reqpos, n, stream.stride);
      pos := stream.Forward(n);
      here := [];
      forall it | it in stream.Registered
        ensures stream.ServedOne(it)
      {
        assert old(stream.ServedOne(it));
      }
      ok := true;
    }

    /** operator++(int): the copy handed back keeps the old position and rows. */
    method PostIncrement() returns (was: Iterator<Row>)
      requires stream != null && stream.Valid() && this in stream.Registered
      modifies this`pos, this`here, stream`iterators, stream`Registered, stream`reqpos
      modifies set it | it in stream.Registered :: it`prev
      ensures stream.Valid() && fresh(was) && was.stream == stream
      ensures stream.Registered == [was] + old(stream.Registered)
      ensures was.pos == old(pos) && was.here == old(here)
      ensures pos == stream.reqpos == old(stream.reqpos) + old(stream.stride) && here == []
    {
      hide OnGrid, Block;
      was := new Iterator<Row>.Copy(this);
      assert this in stream.Registered;
      var ok := Advance(1);
    }

    /** operator=: moves this iterator to the other's stream, position and rows. */
    method Assign(rhs: Iterator<Row>)
      requires stream != null ==> stream.Valid() && this in stream.Registered
      requires rhs.stream != null ==> rhs.stream.Valid() && rhs in rhs.stream.Registered
      requires stream != null && rhs.stream != null && stream != rhs.stream ==>
                 forall it :: it in stream.Registered ==> it !in rhs.stream.Registered
      requires stream == null ==> prev == null && next == null
      requires stream == null && rhs.stream != null ==> this !in rhs.stream.Registered
      modifies this
      modifies (if stream == null then {} else {stream})`iterators
      modifies (if stream == null then {} else {stream})`Registered
      modifies if stream == null then {} else set it | it in stream.Registered
      modifies (if rhs.stream == null then {} else {rhs.stream})`iterators
      modifies (if rhs.stream == null then {} else {rhs.stream})`Registered
      modifies if rhs.stream == null then {} else set it | it in rhs.stream.Registered :: it`prev
      ensures stream == old(rhs.stream) && pos == old(rhs.pos) && here == old(rhs.here)
      ensures stream != null ==> stream.Valid()
      ensures stream != null && old(stream) == stream ==> stream.Registered == old(stream.Registered)
      ensures stream != null && old(stream) != stream ==> stream.Registered == [this] + old(rhs.stream.Registered)
      ensures old(stream) != null && old(stream) != stream ==>
                && old(stream).Valid()
                && forall it :: it in old(stream).Registered <==> it in old(stream.Registered) && it != this
      ensures old(stream) != null ==>
                forall it :: it in old(stream.Registered) && it != this ==>
                  it.stream == old(stream) && it.pos == old(it.pos) && it.here == old(it.here)
    {
      hide OnGrid, Block;
      assert rhs.stream != null ==> rhs.stream.ServedOne(rhs);
      if rhs.stream == stream {
        here := rhs.here;
        pos := rhs.pos;
      } else {
        if stream != null {
          if rhs.stream != null {
            assert forall k :: 0 <= k < |rhs.stream.Registered| ==> rhs.stream.Registered[k] !in stream.Registered;
          }
          stream.Unregister(this);
        }
        Join(rhs);
      }
    }

    /** The second half of an assignment: takes over what rhs is, and registers. */
    method Join(rhs: Iterator<Row>)
      requires prev == null && next == null
      requires rhs.stream != null ==>
                 rhs.stream.Valid() && rhs in rhs.stream.Registered && this !in rhs.stream.Registered
      modifies this
      modifies (if rhs.stream == null then {} else {rhs.stream})`iterators
      modifies (if rhs.stream == null then {} else {rhs.stream})`Registered
      modifies if rhs.stream == null then {} else set it | it in rhs.stream.Registered :: it`prev
      ensures stream == old(rhs.stream) && pos == old(rhs.pos) && here == old(rhs.here)
      ensures stream != null ==> stream.Valid() && stream.Registered == [this] + old(rhs.stream.Registered)
    {
      hide OnGrid, Block;
      assert rhs.stream != null ==> rhs.stream.ServedOne(rhs);
      here := rhs.here;
      pos := rhs.pos;
      stream := rhs.stream;
      if stream != null {
        stream.Register(this);
      }
    }

    method Refresh()
      requires stream != null ==> stream.Valid() && this in stream.Registered
      modifies (if stream == null then {} else {stream})`realpos, (if stream == null then {} else {stream})`done
      modifies if stream == null then {} else {stream.cur, stream.cur.home}
      modifies if stream == null then {} else set it | it in stream.Registered :: it`here
      ensures stream != null ==> stream.Valid()
      ensures stream != null ==> here == Block(stream.cur.home.rows, pos, stream.stride)
    {
      if stream != null {
        assert stream.ServedOne(this);
        stream.ServiceIterators(pos);
      }
    }

    /** Comparison with an end marker tells exactly whether any rows are left here. */
    method EqualsEnd(end: Iterator<Row>) returns (equal: bool)
      requires stream != null && stream.Valid() && this in stream.Registered
      requires end.stream == null && end.here == []
      modifies stream`realpos, stream`done, stream.cur, stream.cur.home
      modifies set it | it in stream.Registered :: it`here
      ensures stream.Valid()
      ensures equal <==> pos >= |stream.cur.home.rows|
    {
      Refresh();
      end.Refresh();
      equal := here == [] && end.here == [];
    }

    method Destroy()
      requires stream != null ==> stream.Valid() && this in stream.Registered
      modifies (if stream == null then {} else {stream})`iterators
      modifies (if stream == null then {} else {stream})`Registered
      modifies if stream == null then {} else set it | it in stream.Registered
      ensures stream == old(stream)
      ensures stream != null ==>
                && stream.Valid()
                && (forall it :: it in stream.Registered <==> it in old(stream.Registered) && it != this)
                && forall it :: it in stream.Registered ==>
                     it.stream == stream && it.pos == old(it.pos) && it.here == old(it.here)
    {
      if stream != null {
        stream.Unregister(this);
      }
    }

    method Fill(r: seq<Row>)
      modifies this`here
      ensures here == r
    {
      here := r;
    }
  }

  // ---------------------------------------------------------------------
  // Every interleaving
  // ---------------------------------------------------------------------

  /** What a program does with its iterators, which it knows by number. New ones get
      the next number; a destroyed one gives up its own, and the others close up. */
  datatype Action =
    | Build
    | Advance(i: nat, n: int)
    | PostIncrement(i: nat)
    | Copy(i: nat)
    | Assign(i: nat, from: nat)
    | Destroy(i: nat)
    | Refresh(i: nat)
    | AtEnd(i: nat)

  /** What the program gets to see. */
  datatype Sight<Row> = Held(rows: seq<Row>) | End(isEnd: bool) | Refused | Nothing

  /** Where the iterators stand, the stream's requested position, and whether anything
      has been read yet. No read position and no cursor: what one iterator sees must
      not depend on them. */
  datatype Places = Places(positions: seq<nat>, reqpos: nat, read: bool)

  const START := Places([], 0, false)

  /** The action names iterators that exist, and builds one only before the first read. */
  predicate Allowed(a: Action, p: Places) {
    if a.Build? then !p.read else a.i < |p.positions| && (a.Assign? ==> a.from < |p.positions|)
  }

  function After(p: Places, stride: nat, a: Action): Places {
    if !Allowed(a, p) then p
    else
      match a
      case Build => p.(positions := p.positions + [p.reqpos])
      case Advance(i, n) =>
        if n <= 0 then p
        else p.(positions := p.positions[i := p.reqpos + n * stride], reqpos := p.reqpos + n * stride)
      case PostIncrement(i) =>
        p.(positions := p.positions[i := p.reqpos + stride] + [p.positions[i]], reqpos := p.reqpos + stride)
      case Copy(i) => p.(positions := p.positions + [p.positions[i]])
      case Assign(i, from) => p.(positions := p.positions[i := p.positions[from]])
      case Destroy(i) => p.(positions := p.positions[..i] + p.positions[i + 1..])
      case Refresh(_) => p.(read := true)
      case AtEnd(_) => p.(read := true)
  }

  function Seen<Row>(rows: seq<Row>, p: Places, stride: nat, a: Action): Sight<Row> {
    if !Allowed(a, p) then Nothing
    else
      match a
      case Advance(_, n) => if n < 0 then Refused else Nothing
      case Refresh(i) => Held(Block(rows, p.positions[i], stride))
      case AtEnd(i) => End(p.positions[i] >= |rows|)
      case _ => Nothing
  }

  /** Where the iterators stand after a run of actions. */
  function AfterAll(p: Places, stride: nat, actions: seq<Action>): Places {
    if actions == [] then p
    else After(AfterAll(p, stride, actions[..|actions| - 1]), stride, actions[|actions| - 1])
  }

  /** What is seen in a run, one sight per action. */
  function SeenAll<Row>(rows: seq<Row>, p: Places, stride: nat, actions: seq<Action>): (r: seq<Sight<Row>>)
    ensures |r| == |actions|
  {
    if actions == [] then []
    else
      var init, last := actions[..|actions| - 1], actions[|actions| - 1];
      SeenAll(rows, p, stride, init) + [Seen(rows, AfterAll(p, stride, init), stride, last)]
  }

  /** The iterators of a program stand on the stream where p says. */
  ghost predicate StandAt<Row>(s: Stream<Row>, its: seq<Iterator<Row>>, p: Places)
    reads s, s.cur, s.cur.home, s.Registered, its
  {
    && s.Valid() && s.reqpos == p.reqpos && (!p.read ==> s.realpos == 0) && |its| == |p.positions|
    && (forall k :: 0 <= k < |its| ==> its[k] in s.Registered && its[k].stream == s && its[k].pos == p.positions[k])
    && (forall j, k :: 0 <= j < k < |its| ==> its[j] != its[k])
  }

  method ActBuild<Row(==)>(s: Stream<Row>, its: seq<Iterator<Row>>, a: Action, ghost p: Places)
      returns (next: seq<Iterator<Row>>)
    requires StandAt(s, its, p) && Allowed(a, p) && a.Build?
    modifies s, s.cur, s.cur.home, s.Registered
    ensures s.stride == old(s.stride) && StandAt(s, next, After(p, s.stride, a))
    ensures forall it :: it in s.Registered ==> it in old(s.Registered) || fresh(it)
  {
    hide OnGrid, Block;
    var it := new Iterator<Row>.OnStream(s);
    next := its + [it];
  }

  method ActAdvance<Row(==)>(s: Stream<Row>, its: seq<Iterator<Row>>, a: Action, ghost p: Places)
      returns (ok: bool)
    requires StandAt(s, its, p) && Allowed(a, p) && a.Advance?
    modifies s, s.cur, s.cur.home, s.Registered
    ensures s.stride == old(s.stride) && StandAt(s, its, After(p, s.stride, a))
    ensures ok == (a.n >= 0)
    ensures s.Registered == old(s.Registered)
  {
    hide OnGrid, Block;
    ok := its[a.i].Advance(a.n);
  }

  method ActPostIncrement<Row(==)>(s: Stream<Row>, its: seq<Iterator<Row>>, a: Action, ghost p: Places)
      returns (next: seq<Iterator<Row>>)
    requires StandAt(s, its, p) && Allowed(a, p) && a.PostIncrement?
    modifies s, s.cur, s.cur.home, s.Registered
    ensures s.stride == old(s.stride) && StandAt(s, next, After(p, s.stride, a))
    ensures forall it :: it in s.Registered ==> it in old(s.Registered) || fresh(it)
  {
    hide OnGrid, Block;
    var was := its[a.i].PostIncrement();
    next := its + [was];
  }

  method ActCopy<Row(==)>(s: Stream<Row>, its: seq<Iterator<Row>>, a: Action, ghost p: Places)
      returns (next: seq<Iterator<Row>>)
    requires StandAt(s, its, p) && Allowed(a, p) && a.Copy?
    modifies s, s.cur, s.cur.home, s.Registered
    ensures s.stride == old(s.stride) && StandAt(s, next, After(p, s.stride, a))
    ensures forall it :: it in s.Registered ==> it in old(s.Registered) || fresh(it)
  {
    hide OnGrid, Block;
    var copy := new Iterator<Row>.Copy(its[a.i]);
    next := its + [copy];
  }

  method ActAssign<Row(==)>(s: Stream<Row>, its: seq<Iterator<Row>>, a: Action, ghost p: Places)
    requires StandAt(s, its, p) && Allowed(a, p) && a.Assign?
    modifies s, s.cur, s.cur.home, s.Registered
    ensures s.stride == old(s.stride) && StandAt(s, its, After(p, s.stride, a))
    ensures s.Registered == old(s.Registered)
  {
    hide OnGrid, Block;
    its[a.i].Assign(its[a.from]);
  }

  method ActDestroy<Row(==)>(s: Stream<Row>, its: seq<Iterator<Row>>, a: Action, ghost p: Places)
      returns (next: seq<Iterator<Row>>)
    requires StandAt(s, its, p) && Allowed(a, p) && a.Destroy?
    modifies s, s.cur, s.cur.home, s.Registered
    ensures s.stride == old(s.stride) && StandAt(s, next, After(p, s.stride, a))
    ensures forall it :: it in s.Registered ==> it in old(s.Registered) || fresh(it)
  {
    hide OnGrid, Block;
    its[a.i].Destroy();
    next := its[..a.i] + its[a.i + 1..];
  }

  method ActRefresh<Row(==)>(s: Stream<Row>, its: seq<Iterator<Row>>, a: Action, ghost p: Places)
      returns (rows: seq<Row>)
    requires StandAt(s, its, p) && Allowed(a, p) && a.Refresh?
    modifies s, s.cur, s.cur.home, s.Registered
    ensures s.stride == old(s.stride) && StandAt(s, its, After(p, s.stride, a))
    ensures rows == Block(s.cur.home.rows, p.positions[a.i], s.stride)
    ensures s.Registered == old(s.Registered)
  {
    hide OnGrid, Block;
    its[a.i].Refresh();
    rows := its[a.i].here;
  }

  method ActAtEnd<Row(==)>(s: Stream<Row>, its: seq<Iterator<Row>>, a: Action, ghost p: Places)
      returns (equal: bool)
    requires StandAt(s, its, p) && Allowed(a, p) && a.AtEnd?
    modifies s, s.cur, s.cur.home, s.Registered
    ensures s.stride == old(s.stride) && StandAt(s, its, After(p, s.stride, a))
    ensures equal <==> p.positions[a.i] >= |s.cur.home.rows|
    ensures s.Registered == old(s.Registered)
  {
    hide OnGrid, Block;
    var end := new Iterator<Row>.End();
    equal := its[a.i].EqualsEnd(end);
  }

  /** One action, whichever it is. */
  method Act<Row(==)>(s: Stream<Row>, its: seq<Iterator<Row>>, a: Action, allowed: bool, ghost p: Places)
      returns (next: seq<Iterator<Row>>, sight: Sight<Row>)
    requires StandAt(s, its, p) && allowed == Allowed(a, p)
    modifies s, s.cur, s.cur.home, s.Registered
    ensures s.stride == old(s.stride) && StandAt(s, next, After(p, s.stride, a))
    ensures sight == Seen(s.cur.home.rows, p, s.stride, a)
    ensures forall it :: it in s.Registered ==> it in old(s.Registered) || fresh(it)
  {
    hide Block;
    next, sight := its, Nothing;
    if allowed {
      hide StandAt;
      if a.Build? {
        next := ActBuild(s, its, a, p);
      } else if a.Advance? {
        var ok := ActAdvance(s, its, a, p);
        sight := if ok then Nothing else Refused;
      } else if a.PostIncrement? {
        next := ActPostIncrement(s, its, a, p);
      } else if a.Copy? {
        next := ActCopy(s, its, a, p);
      } else if a.Assign? {
        ActAssign(s, its, a, p);
      } else if a.Destroy? {
        next := ActDestroy(s, its, a, p);
      } else if a.Refresh? {
        var rows := ActRefresh(s, its, a, p);
        sight := Held(rows);
      } else {
        var equal := ActAtEnd(s, its, a, p);
        sight := End(equal);
      }
    }
  }

  /** Whatever a program does with its iterators, in whatever order: what it gets to see
      is fixed by its own actions. Each refresh shows exactly the block at the
      iterator's own position, whichever blocks were read, skipped or handed out
      before on account of the others. */
  method Interleave<Row(==)>(rows: seq<Row>, stride: int, actions: seq<Action>) returns (seen: seq<Sight<Row>>)
    requires |rows| < ALL && stride >= 1
    ensures seen == SeenAll(rows, START, stride, actions)
  {
    hide Block, After, Seen, Allowed;
    var server := new Server<Row>(rows, 0);
    var s := new Stream<Row>(server, stride);
    var its: seq<Iterator<Row>> := [];
    var p := START;
    seen := [];
    for k := 0 to |actions|
      invariant fresh(s) && fresh(s.cur) && fresh(s.cur.home) && s.cur.home.rows == rows && s.stride == stride
      invariant forall j :: 0 <= j < |s.Registered| ==> fresh(s.Registered[j])
      invariant StandAt(s, its, p) && p == AfterAll(START, stride, actions[..k])
      invariant seen == SeenAll(rows, START, stride, actions[..k])
    {
      var sight;
      ghost var was := s.Registered;
      its, sight := Act(s, its, actions[k], Allowed(actions[k], p), p);
      forall j | 0 <= j < |s.Registered|
        ensures fresh(s.Registered[j])
      {
        var it := s.Registered[j];
        if it in was {
          var m :| 0 <= m < |was| && was[m] == it;
        }
      }
      seen := seen + [sight];
      assert actions[..k + 1][..k] == actions[..k];
      p := After(p, stride, actions[k]);
    }
    assert actions[..|actions|] == actions;
  }

  // ---------------------------------------------------------------------
  // One pass over the rows
  // ---------------------------------------------------------------------

  /** The program of a reading loop: look, step on, look again. */
  function ReadingLoop(rounds: nat): seq<Action> {
    if rounds == 0 then [Build] else ReadingLoop(rounds - 1) + [Refresh(0), Advance(0, 1)]
  }

  /** All the rows shown by a run, in order. */
  function Shown<Row>(seen: seq<Sight<Row>>): seq<Row> {
    if seen == [] then []
    else
      var last := seen[|seen| - 1];
      Shown(seen[..|seen| - 1]) + (if last.Held? then last.rows else [])
  }

  lemma TwoActions<Row>(rows: seq<Row>, stride: nat, actions: seq<Action>, a: Action, b: Action)
    ensures var p := AfterAll(START, stride, actions);
      AfterAll(START, stride, actions + [a, b]) == After(After(p, stride, a), stride, b)
    ensures var p := AfterAll(START, stride, actions);
      SeenAll(rows, START, stride, actions + [a, b])
        == SeenAll(rows, START, stride, actions)
           + [Seen(rows, p, stride, a), Seen(rows, After(p, stride, a), stride, b)]
  {
    hide After, Seen;
    assert (actions + [a, b])[..|actions| + 1] == actions + [a];
    assert (actions + [a])[..|actions|] == actions;
  }

  lemma ShownTwo<Row>(seen: seq<Sight<Row>>, x: Sight<Row>, y: Sight<Row>)
    requires x.Held? && !y.Held?
    ensures Shown(seen + [x, y]) == Shown(seen) + x.rows
  {
    assert (seen + [x, y])[..|seen| + 1] == seen + [x];
    assert (seen + [x])[..|seen|] == seen;
  }

  lemma BuildAlone<Row>(rows: seq<Row>, stride: nat)
    ensures AfterAll(START, stride, [Build]) == Places([0], 0, false)
    ensures Shown(SeenAll(rows, START, stride, [Build])) == []
  {
    assert [Build][..0] == [];
    assert SeenAll(rows, START, stride, [Build]) == [Nothing];
  }

  lemma OneRound<Row>(rows: seq<Row>, pos: nat, stride: nat, read: bool)
    ensures var p := Places([pos], pos, read);
      && Seen(rows, p, stride, Refresh(0)) == Held(Block(rows, pos, stride))
      && Seen(rows, After(p, stride, Refresh(0)), stride, Advance(0, 1)) == Nothing
      && After(After(p, stride, Refresh(0)), stride, Advance(0, 1)) == Places([pos + stride], pos + stride, true)
  {
    hide Block;
  }

  lemma NextBlock<Row>(rows: seq<Row>, pos: nat, stride: nat)
    ensures rows[..Min(pos, |rows|)] + Block(rows, pos, stride) == rows[..Min(pos + stride, |rows|)]
  {
  }

  /** A reading loop shows every row once and in order: after k rounds the first
      k strides of them, so all of them once k strides reach the end. */
  lemma {:induction false} ReadingLoopShowsRows<Row>(rows: seq<Row>, stride: nat, rounds: nat)
    requires stride >= 1
    ensures AfterAll(START, stride, ReadingLoop(rounds)) == Places([rounds * stride], rounds * stride, rounds > 0)
    ensures Shown(SeenAll(rows, START, stride, ReadingLoop(rounds))) == rows[..Min(rounds * stride, |rows|)]
  {
    if rounds == 0 {
      BuildAlone(rows, stride);
    } else {
      var before := ReadingLoop(rounds - 1);
      var pos := (rounds - 1) * stride;
      assert rounds * stride == pos + stride;
      ReadingLoopShowsRows(rows, stride, rounds - 1);
      TwoActions(rows, stride, before, Refresh(0), Advance(0, 1));
      OneRound(rows, pos, stride, rounds > 1);
      ShownTwo(SeenAll(rows, START, stride, before), Held(Block(rows, pos, stride)), Nothing);
      hide AfterAll, SeenAll, Shown, After, Seen;
      NextBlock(rows, pos, stride);
    }
  }
}
