/** The upcoming-assignment listing (get_upcoming_assignments): the pending
    assignments, in table order, whose due date is at most seven days after now.
    There is no lower bound, so overdue pending assignments stay in the list.
    Parsing a due-date text is a parameter: it yields a day number, or None for a
    text the date format rejects, which aborts the whole listing. */
module Schedule {

  datatype Option<T> = None | Some(value: T)

  datatype DateError = MalformedDate(text: string)

  datatype Result<T> = Ok(value: T) | Err(error: DateError)

  datatype Status = Pending | Completed

  /** A row of the assignments table; a due date is kept as the text the user typed. */
  datatype Assignment = Assignment(classId: int, title: string, dueDate: string, status: Status)

  /** What the listing returns for an assignment: its title and its due-date text. */
  datatype Listing = Listing(title: string, dueDate: string)

  /** The wall-clock instant: a day number and the microseconds elapsed since its midnight. */
  datatype Now = Now(day: int, micros: int)

  const MicrosPerDay: int := 86_400_000_000
  const WindowDays: int := 7

  predicate ValidNow(now: Now)
  {
    0 <= now.micros < MicrosPerDay
  }

  /** A parsed due date is midnight of its day; it is compared with now + 7 days. */
  predicate DueWithinWindow(dueDay: int, now: Now)
  {
    dueDay * MicrosPerDay <= now.day * MicrosPerDay + now.micros + WindowDays * MicrosPerDay
  }

  /** Comparing instants amounts to comparing days: due day <= today + 7. */
  lemma DueWithinWindowIsDayBound(dueDay: int, now: Now)
    requires ValidNow(now)
    ensures DueWithinWindow(dueDay, now) <==> dueDay <= now.day + WindowDays
  {
  }

  /** The rows with status pending, in table order (the query's WHERE clause). */
  function PendingRows(rows: seq<Assignment>): (r: seq<Assignment>)
    ensures |r| <= |rows|
    ensures forall a :: a in r <==> a in rows && a.status == Pending
  {
    if rows == [] then []
    else if rows[0].status == Pending then [rows[0]] + PendingRows(rows[1..])
    else PendingRows(rows[1..])
  }

  /** The filter over the pending rows (the list comprehension); the first due date
      that does not parse aborts it. */
  function SelectDue(pending: seq<Assignment>, now: Now, parse: string -> Option<int>): Result<seq<Listing>>
  {
    if pending == [] then Ok([])
    else
      var a := pending[0];
      match parse(a.dueDate)
      case None => Err(MalformedDate(a.dueDate))
      case Some(d) =>
        var rest := SelectDue(pending[1..], now, parse);
        if rest.Err? then rest
        else if DueWithinWindow(d, now) then Ok([Listing(a.title, a.dueDate)] + rest.value)
        else rest
  }

  function Upcoming(rows: seq<Assignment>, now: Now, parse: string -> Option<int>): Result<seq<Listing>>
  {
    SelectDue(PendingRows(rows), now, parse)
  }

  /** A pending row whose due date does not parse. */
  predicate Unparsable(a: Assignment, parse: string -> Option<int>)
  {
    a.status == Pending && parse(a.dueDate).None?
  }

  /** A row the listing keeps: pending, parsable, due no later than now + 7 days. */
  predicate Selected(a: Assignment, now: Now, parse: string -> Option<int>)
  {
    a.status == Pending && parse(a.dueDate).Some? && DueWithinWindow(parse(a.dueDate).value, now)
  }

  /** Two listings one after the other: the first error wins, otherwise concatenation. */
  function Join(x: Result<seq<Listing>>, y: Result<seq<Listing>>): Result<seq<Listing>>
  {
    if x.Err? then x else if y.Err? then y else Ok(x.value + y.value)
  }

  /** One step of the listing on the first row of the table. */
  lemma UpcomingStep(rows: seq<Assignment>, now: Now, parse: string -> Option<int>)
    requires rows != []
    ensures Upcoming(rows, now, parse) ==
      var a, rest := rows[0], Upcoming(rows[1..], now, parse);
      if a.status != Pending then rest
      else if parse(a.dueDate).None? then Err(MalformedDate(a.dueDate))
      else if rest.Err? then rest
      else if DueWithinWindow(parse(a.dueDate).value, now) then Ok([Listing(a.title, a.dueDate)] + rest.value)
      else rest
  {
  }

  lemma {:induction false} SelectDueConcat(a: seq<Assignment>, b: seq<Assignment>, now: Now, parse: string -> Option<int>)
    ensures SelectDue(a + b, now, parse) == Join(SelectDue(a, now, parse), SelectDue(b, now, parse))
  {
    if a == [] {
      assert a + b == b;
      var rb := SelectDue(b, now, parse);
      if rb.Ok? {
        assert [] + rb.value == rb.value;
      }
    } else {
      assert (a + b)[0] == a[0] && (a + b)[1..] == a[1..] + b;
      SelectDueConcat(a[1..], b, now, parse);
      var ra, rb := SelectDue(a[1..], now, parse), SelectDue(b, now, parse);
      if ra.Ok? && rb.Ok? {
        var l := Listing(a[0].title, a[0].dueDate);
        assert [l] + (ra.value + rb.value) == ([l] + ra.value) + rb.value;
      }
    }
  }

  lemma {:induction false} PendingConcat(a: seq<Assignment>, b: seq<Assignment>)
    ensures PendingRows(a + b) == PendingRows(a) + PendingRows(b)
  {
    if a == [] {
      assert a + b == b;
    } else {
      assert (a + b)[0] == a[0] && (a + b)[1..] == a[1..] + b;
      PendingConcat(a[1..], b);
    }
  }

  /** The listing of a table split in two is the listing of the first part followed by
      that of the second: the order of the table is kept. */
  lemma UpcomingConcat(a: seq<Assignment>, b: seq<Assignment>, now: Now, parse: string -> Option<int>)
    ensures Upcoming(a + b, now, parse) == Join(Upcoming(a, now, parse), Upcoming(b, now, parse))
  {
    PendingConcat(a, b);
    SelectDueConcat(PendingRows(a), PendingRows(b), now, parse);
  }

  /** The listing fails exactly when some pending row has an unparsable due date, and
      it then reports the first such row's text. */
  lemma {:induction false} UpcomingError(rows: seq<Assignment>, now: Now, parse: string -> Option<int>)
    ensures Upcoming(rows, now, parse).Err? <==> exists i :: 0 <= i < |rows| && Unparsable(rows[i], parse)
    ensures forall i :: 0 <= i < |rows| && Unparsable(rows[i], parse) &&
                        (forall j :: 0 <= j < i ==> !Unparsable(rows[j], parse)) ==>
              Upcoming(rows, now, parse) == Err(MalformedDate(rows[i].dueDate))
  {
    if rows != [] {
      UpcomingStep(rows, now, parse);
      UpcomingError(rows[1..], now, parse);
      assert forall i :: 1 <= i < |rows| ==> rows[1..][i - 1] == rows[i];
      if !Unparsable(rows[0], parse) {
        forall i | 0 <= i < |rows| && Unparsable(rows[i], parse) &&
                   (forall j :: 0 <= j < i ==> !Unparsable(rows[j], parse))
          ensures Upcoming(rows, now, parse) == Err(MalformedDate(rows[i].dueDate))
        {
          assert i >= 1;
          assert forall j :: 0 <= j < i - 1 ==> !Unparsable(rows[1..][j], parse) by {
            forall j | 0 <= j < i - 1 ensures !Unparsable(rows[1..][j], parse) {
              assert rows[1..][j] == rows[j + 1];
            }
          }
          assert Unparsable(rows[1..][i - 1], parse);
        }
        if exists i :: 0 <= i < |rows| && Unparsable(rows[i], parse) {
          var i :| 0 <= i < |rows| && Unparsable(rows[i], parse);
          assert Unparsable(rows[1..][i - 1], parse);
        }
      }
    }
  }

  /** When the listing succeeds it holds exactly the selected rows. */
  lemma {:induction false} UpcomingMembers(rows: seq<Assignment>, now: Now, parse: string -> Option<int>)
    requires Upcoming(rows, now, parse).Ok?
    ensures forall l :: l in Upcoming(rows, now, parse).value <==>
              exists i :: 0 <= i < |rows| && Selected(rows[i], now, parse) && l == Listing(rows[i].title, rows[i].dueDate)
  {
    if rows != [] {
      UpcomingStep(rows, now, parse);
      UpcomingMembers(rows[1..], now, parse);
      assert forall i :: 1 <= i < |rows| ==> rows[1..][i - 1] == rows[i];
      forall l ensures l in Upcoming(rows, now, parse).value <==>
                 exists i :: 0 <= i < |rows| && Selected(rows[i], now, parse) && l == Listing(rows[i].title, rows[i].dueDate)
      {
        if exists i :: 0 <= i < |rows| && Selected(rows[i], now, parse) && l == Listing(rows[i].title, rows[i].dueDate) {
          var i :| 0 <= i < |rows| && Selected(rows[i], now, parse) && l == Listing(rows[i].title, rows[i].dueDate);
          if i > 0 {
            assert Selected(rows[1..][i - 1], now, parse);
          }
        }
        if l in Upcoming(rows[1..], now, parse).value {
          var i :| 0 <= i < |rows| - 1 && Selected(rows[1..][i], now, parse) && l == Listing(rows[1..][i].title, rows[1..][i].dueDate);
          assert rows[i + 1] == rows[1..][i];
        }
      }
    }
  }

  /** Overdue pending assignments are still listed (when the listing succeeds). */
  lemma OverdueStaysListed(rows: seq<Assignment>, now: Now, parse: string -> Option<int>, i: nat)
    requires ValidNow(now) && Upcoming(rows, now, parse).Ok?
    requires i < |rows| && rows[i].status == Pending
    requires parse(rows[i].dueDate).Some? && parse(rows[i].dueDate).value < now.day
    ensures Listing(rows[i].title, rows[i].dueDate) in Upcoming(rows, now, parse).value
  {
    DueWithinWindowIsDayBound(parse(rows[i].dueDate).value, now);
    UpcomingMembers(rows, now, parse);
  }

  /** A listed entry comes from a pending row due on or before today + 7; a completed
      row, or one due later, is never the source of an entry. */
  lemma ListedAreDueSoon(rows: seq<Assignment>, now: Now, parse: string -> Option<int>, l: Listing)
    requires ValidNow(now) && Upcoming(rows, now, parse).Ok?
    requires l in Upcoming(rows, now, parse).value
    ensures exists i :: 0 <= i < |rows| && rows[i].status == Pending && parse(rows[i].dueDate).Some? &&
              parse(rows[i].dueDate).value <= now.day + WindowDays && l == Listing(rows[i].title, rows[i].dueDate)
  {
    UpcomingMembers(rows, now, parse);
    var i :| 0 <= i < |rows| && Selected(rows[i], now, parse) && l == Listing(rows[i].title, rows[i].dueDate);
    DueWithinWindowIsDayBound(parse(rows[i].dueDate).value, now);
  }

  /** The listing of a one-row table. */
  lemma UpcomingOne(a: Assignment, now: Now, parse: string -> Option<int>)
    ensures Upcoming([a], now, parse) ==
      if a.status != Pending then Ok([])
      else if parse(a.dueDate).None? then Err(MalformedDate(a.dueDate))
      else if DueWithinWindow(parse(a.dueDate).value, now) then Ok([Listing(a.title, a.dueDate)])
      else Ok([])
  {
    assert [a][1..] == [];
    UpcomingStep([a], now, parse);
    assert Upcoming([], now, parse) == Ok([]);
    assert [Listing(a.title, a.dueDate)] + [] == [Listing(a.title, a.dueDate)];
  }

  /** Worked case: with today's day d, pending rows due d + 3, d + 10 and d - 1 and a
      completed row list the first and the third row only. */
  lemma UpcomingExample(now: Now, parse: string -> Option<int>, soon: string, later: string, overdue: string)
    requires ValidNow(now)
    requires parse(soon) == Some(now.day + 3)
    requires parse(later) == Some(now.day + 10)
    requires parse(overdue) == Some(now.day - 1)
    ensures Upcoming([Assignment(1, "A", soon, Pending), Assignment(1, "B", later, Pending),
                      Assignment(1, "C", overdue, Pending), Assignment(1, "D", soon, Completed)], now, parse)
            == Ok([Listing("A", soon), Listing("C", overdue)])
  {
    var a, b, c, d := Assignment(1, "A", soon, Pending), Assignment(1, "B", later, Pending),
                      Assignment(1, "C", overdue, Pending), Assignment(1, "D", soon, Completed);
    var la, lc := Listing("A", soon), Listing("C", overdue);
    DueWithinWindowIsDayBound(now.day + 3, now);
    DueWithinWindowIsDayBound(now.day + 10, now);
    DueWithinWindowIsDayBound(now.day - 1, now);
    UpcomingOne(a, now, parse);
    UpcomingOne(b, now, parse);
    UpcomingOne(c, now, parse);
    UpcomingOne(d, now, parse);
    calc {
      Upcoming([a, b, c, d], now, parse);
      { assert [a, b, c, d] == [a] + [b] + [c] + [d];
        UpcomingConcat([a] + [b] + [c], [d], now, parse); }
      Join(Upcoming([a] + [b] + [c], now, parse), Ok([]));
      { UpcomingConcat([a] + [b], [c], now, parse); }
      Join(Join(Upcoming([a] + [b], now, parse), Ok([lc])), Ok([]));
      { UpcomingConcat([a], [b], now, parse); }
      Join(Join(Join(Ok([la]), Ok([])), Ok([lc])), Ok([]));
      { assert [la] + [] + [lc] + [] == [la, lc]; }
      Ok([la, lc]);
    }
  }
}
