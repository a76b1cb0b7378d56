/** The `bookings` table and the table-booking handler (app.py:327-418) and
    the status update of `booking_payment` (app.py:425-444). */
module Bookings {
  import opened Wrappers
  import opened Sequences

  /** The slot catalog, in display order. */
  const AllSlots: seq<string> := [
    "10:00 AM - 12:00 PM",
    "12:00 PM - 2:00 PM",
    "2:00 PM - 4:00 PM",
    "4:00 PM - 6:00 PM",
    "6:00 PM - 8:00 PM",
    "8:00 PM - 10:00 PM"
  ]

  /** The table catalog. */
  const AllTables: seq<int> := [1, 2, 3, 4, 5]

  datatype Status = Pending | Paid

  /** The form of a booking submission; `tableNo` is the form field after `int(...)`. */
  datatype BookingRequest = BookingRequest(
    name: string, email: string, phone: string,
    date: string, time: string, guests: string,
    tableNo: int, category: string, subcategory: string)

  /** A row of the `bookings` table. */
  datatype Booking = Booking(id: nat, details: BookingRequest, status: Status)

  datatype SubmitOutcome =
    | Conflict         // "Sorry, this table is already booked ..."
    | Created(id: nat) // the new row's id, stored in the session

  /** One row of `SELECT time, COUNT(table_no) ... GROUP BY time`. */
  datatype SlotCount = SlotCount(time: string, booked: nat)

  predicate AtSlot(b: Booking, date: string, time: string) {
    b.details.date == date && b.details.time == time
  }

  predicate AtSeat(b: Booking, date: string, time: string, tableNo: int) {
    AtSlot(b, date, time) && b.details.tableNo == tableNo
  }

  /** `SELECT id FROM bookings WHERE date=%s AND time=%s AND table_no=%s`
      finds a row. A taken seat puts its slot in the slot query's count, and
      an empty table has no taken seat. */
  predicate SeatTaken(rows: seq<Booking>, date: string, time: string, tableNo: int)
    ensures SeatTaken(rows, date, time, tableNo) ==> CountRows(rows, date, time) > 0
    ensures rows == [] ==> !SeatTaken(rows, date, time, tableNo)
  {
    exists k :: 0 <= k < |rows| && AtSeat(rows[k], date, time, tableNo)
  }

  ghost predicate IdsBelow(rows: seq<Booking>, nextId: nat) {
    forall k :: 0 <= k < |rows| ==> rows[k].id < nextId
  }

  ghost predicate UniqueIds(rows: seq<Booking>) {
    forall i, j :: 0 <= i < j < |rows| ==> rows[i].id != rows[j].id
  }

  /** At most one booking per (date, time, table). */
  ghost predicate NoDoubleBooking(rows: seq<Booking>) {
    forall i, j :: 0 <= i < j < |rows| ==>
      !AtSeat(rows[j], rows[i].details.date, rows[i].details.time, rows[i].details.tableNo)
  }

  ghost predicate WellFormed(rows: seq<Booking>, nextId: nat) {
    IdsBelow(rows, nextId) && UniqueIds(rows) && NoDoubleBooking(rows)
  }

  /** `COUNT(table_no)` over the rows of one date and time: a row count. */
  function CountRows(rows: seq<Booking>, date: string, time: string): (n: nat)
    ensures n <= |rows|
    ensures n > 0 <==> TimeBooked(rows, date, time)
  {
    if rows == [] then 0
    else
      TimeBookedCons(rows, date, time);
      (if AtSlot(rows[0], date, time) then 1 else 0) + CountRows(rows[1..], date, time)
  }

  /** `[row['table_no'] for row in ...]` for `WHERE date=%s AND time=%s` (line 412). */
  function BookedTables(rows: seq<Booking>, date: string, time: string): (r: seq<int>)
    ensures |r| == CountRows(rows, date, time)
    ensures forall t :: t in r <==> SeatTaken(rows, date, time, t)
  {
    if rows == [] then []
    else
      var rest := BookedTables(rows[1..], date, time);
      assert forall t :: SeatTaken(rows[1..], date, time, t) ==> SeatTaken(rows, date, time, t) by {
        forall t | SeatTaken(rows[1..], date, time, t) ensures SeatTaken(rows, date, time, t) {
          var k :| 0 <= k < |rows[1..]| && AtSeat(rows[1..][k], date, time, t);
          assert AtSeat(rows[k + 1], date, time, t);
        }
      }
      assert forall t :: SeatTaken(rows, date, time, t) ==> AtSeat(rows[0], date, time, t) || SeatTaken(rows[1..], date, time, t) by {
        forall t | SeatTaken(rows, date, time, t) && !AtSeat(rows[0], date, time, t)
          ensures SeatTaken(rows[1..], date, time, t)
        {
          var k :| 0 <= k < |rows| && AtSeat(rows[k], date, time, t);
          assert rows[1..][k - 1] == rows[k];
        }
      }
      if AtSlot(rows[0], date, time) then [rows[0].details.tableNo] + rest else rest
  }

  /** Line 413: the catalog tables not booked for this date and slot, in
      catalog order. */
  function AvailableTables(rows: seq<Booking>, date: string, time: string): (r: seq<int>)
    ensures forall t :: t in r <==> t in AllTables && !SeatTaken(rows, date, time, t)
    ensures SubsequenceOf(r, AllTables)
  {
    var booked := BookedTables(rows, date, time);
    Without(AllTables, set t | t in booked)
  }

  /** Some row is booked for `date` and `time`. */
  ghost predicate TimeBooked(rows: seq<Booking>, date: string, time: string) {
    exists k :: 0 <= k < |rows| && AtSlot(rows[k], date, time)
  }

  lemma TimeBookedCons(rows: seq<Booking>, date: string, time: string)
    requires rows != []
    ensures TimeBooked(rows, date, time) <==> AtSlot(rows[0], date, time) || TimeBooked(rows[1..], date, time)
  {
    if TimeBooked(rows[1..], date, time) {
      var k :| 0 <= k < |rows[1..]| && AtSlot(rows[1..][k], date, time);
      assert AtSlot(rows[k + 1], date, time);
    }
    if TimeBooked(rows, date, time) && !AtSlot(rows[0], date, time) {
      var k :| 0 <= k < |rows| && AtSlot(rows[k], date, time);
      assert rows[1..][k - 1] == rows[k];
    }
  }

  /** The distinct times booked on `date`, in the order they first occur. */
  function BookedTimes(rows: seq<Booking>, date: string): (r: seq<string>)
    ensures Distinct(r)
    ensures forall t :: t in r <==> TimeBooked(rows, date, t)
  {
    if rows == [] then []
    else
      var rest := BookedTimes(rows[1..], date);
      assert forall t :: TimeBooked(rows, date, t) <==> AtSlot(rows[0], date, t) || t in rest by {
        forall t ensures TimeBooked(rows, date, t) <==> AtSlot(rows[0], date, t) || t in rest {
          TimeBookedCons(rows, date, t);
        }
      }
      if rows[0].details.date == date && rows[0].details.time !in rest then
        var r := [rows[0].details.time] + rest;
        assert Distinct(r) by {
          forall i, j | 0 <= i < j < |r| ensures r[i] != r[j] {
            if i == 0 { assert r[j] == rest[j - 1]; } else { assert r[i] == rest[i - 1] && r[j] == rest[j - 1]; }
          }
        }
        r
      else rest
  }

  /** Some group is for `time`. */
  ghost predicate HasGroup(g: seq<SlotCount>, time: string) {
    exists k :: 0 <= k < |g| && g[k].time == time
  }

  /** Lines 393-399: one group per distinct time booked on `date`, with its row count. */
  function GroupByTime(rows: seq<Booking>, date: string): (g: seq<SlotCount>)
    ensures forall i, j :: 0 <= i < j < |g| ==> g[i].time != g[j].time
    ensures forall k :: 0 <= k < |g| ==> g[k].booked == CountRows(rows, date, g[k].time)
    ensures forall t :: HasGroup(g, t) <==> TimeBooked(rows, date, t)
  {
    var times := BookedTimes(rows, date);
    var g := seq(|times|, k requires 0 <= k < |times| => SlotCount(times[k], CountRows(rows, date, times[k])));
    assert forall t :: HasGroup(g, t) <==> t in times by {
      forall t | t in times ensures HasGroup(g, t) {
        var k :| 0 <= k < |times| && times[k] == t;
        assert g[k].time == t;
      }
    }
    g
  }

  /** The slots removed on `date`: those with at least `len(ALL_TABLES)` rows. */
  function FullSlots(rows: seq<Booking>, date: string): (r: set<string>)
    ensures forall t :: t in r <==> CountRows(rows, date, t) >= |AllTables|
  {
    set t | t in BookedTimes(rows, date) && CountRows(rows, date, t) >= |AllTables|
  }

  /** The times of the groups, among `gs`, that are full. */
  function FullAmong(gs: seq<SlotCount>): set<string> {
    set k | 0 <= k < |gs| && gs[k].booked >= |AllTables| :: gs[k].time
  }

  /** Line 440: `UPDATE bookings SET status='paid' WHERE id=%s`. */
  function WithStatusPaid(rows: seq<Booking>, id: nat): (r: seq<Booking>)
    ensures |r| == |rows|
    ensures forall k :: 0 <= k < |rows| ==> r[k].id == rows[k].id && r[k].details == rows[k].details
    ensures forall k :: 0 <= k < |rows| ==> r[k].status == if rows[k].id == id then Paid else rows[k].status
  {
    seq(|rows|, k requires 0 <= k < |rows| => if rows[k].id == id then rows[k].(status := Paid) else rows[k])
  }

  lemma SlotCatalogDistinct()
    ensures Distinct(AllSlots)
  {
    assert AllSlots[0][0] == '1' && AllSlots[0][1] == '0';
    assert AllSlots[1][0] == '1' && AllSlots[1][1] == '2';
    assert AllSlots[2][0] == '2';
    assert AllSlots[3][0] == '4';
    assert AllSlots[4][0] == '6';
    assert AllSlots[5][0] == '8';
  }

  /** The bookings table, with the id the next insert receives. */
  class BookingTable {
    var rows: seq<Booking>
    var nextId: nat

    ghost predicate Valid()
      reads this
    {
      WellFormed(rows, nextId)
    }

    constructor ()
      ensures Valid() && rows == [] && nextId == 1
    {
      rows := [];
      nextId := 1;
    }

    /** The POST branch of `booking` (lines 347-385): re-check the seat, then
        insert a pending row under a fresh id. */
    method Submit(req: BookingRequest) returns (outcome: SubmitOutcome)
      requires Valid()
      modifies this
      ensures Valid()
      ensures outcome.Conflict? <==> old(SeatTaken(rows, req.date, req.time, req.tableNo))
      ensures outcome.Conflict? ==> rows == old(rows) && nextId == old(nextId)
      ensures outcome.Created? ==> outcome.id == old(nextId) && nextId == old(nextId) + 1
      ensures outcome.Created? ==> rows == old(rows) + [Booking(outcome.id, req, Pending)]
      ensures outcome.Created? ==> forall k :: 0 <= k < |old(rows)| ==> old(rows)[k].id != outcome.id
    {
      if SeatTaken(rows, req.date, req.time, req.tableNo) {
        return Conflict;
      }
      outcome := Created(nextId);
      rows := rows + [Booking(nextId, req, Pending)];
      nextId := nextId + 1;
    }

    /** The POST branch of `booking_payment` (lines 437-440). */
    method PayBooking(id: nat)
      requires Valid()
      modifies this
      ensures Valid() && nextId == old(nextId)
      ensures rows == WithStatusPaid(old(rows), id)
    {
      rows := WithStatusPaid(rows, id);
      assert forall i, j :: 0 <= i < j < |rows| ==> rows[i].details == old(rows)[i].details && rows[j].details == old(rows)[j].details;
    }

    /** The GET branch of `booking` (lines 387-418): the slots offered for
        `date` and the tables offered for `date` and `time`; an empty string
        stands for a missing query argument. */
    method BookingView(date: string, time: string) returns (slots: seq<string>, tables: seq<int>)
      ensures date == "" ==> slots == AllSlots
      ensures date != "" ==> forall t :: t in slots <==> t in AllSlots && CountRows(rows, date, t) < |AllTables|
      ensures SubsequenceOf(slots, AllSlots)
      ensures tables == if date != "" && time != "" then AvailableTables(rows, date, time) else AllTables
    {
      slots := AllSlots;
      tables := AllTables;
      if date != "" {
        slots := OpenSlots(date);
        OpenSlotsMembership(rows, date);
      } else {
        SubsequenceOfSelf(AllSlots);
      }
      if date != "" && time != "" {
        tables := AvailableTables(rows, date, time);
      }
    }

    /** Lines 393-405 for one date: group the date's rows by time, then
        remove the full slots from a copy of the catalog. */
    method OpenSlots(date: string) returns (slots: seq<string>)
      ensures slots == Without(AllSlots, FullSlots(rows, date))
    {
      var groups := GroupByTime(rows, date);
      SlotCatalogDistinct();
      slots := RemoveFullSlots(AllSlots, groups);
      FullAmongGroups(rows, date);
    }
  }

  /** Lines 344 and 401-405: start from a copy of the catalog and remove the
      time of every full group that is still offered. */
  method RemoveFullSlots(catalog: seq<string>, groups: seq<SlotCount>) returns (slots: seq<string>)
    requires Distinct(catalog)
    ensures slots == Without(catalog, FullAmong(groups))
  {
    WithoutNothing(catalog);
    slots := catalog;
    var i := 0;
    assert FullAmong(groups[..0]) == {};
    while i < |groups|
      invariant 0 <= i <= |groups|
      invariant slots == Without(catalog, FullAmong(groups[..i]))
    {
      var g := groups[i];
      var done := FullAmong(groups[..i]);
      FullAmongSnoc(groups, i);
      if g.booked >= |AllTables| {
        assert FullAmong(groups[..i + 1]) == done + {g.time};
        if g.time in slots {
          RemoveFirstFromWithout(catalog, done, g.time);
          slots := RemoveFirst(slots, g.time);
        } else {
          WithoutUnchanged(catalog, done, g.time);
        }
      } else {
        assert FullAmong(groups[..i + 1]) == done;
      }
      i := i + 1;
    }
    assert groups[..i] == groups;
  }

  /** A slot is offered exactly when it is in the catalog and fewer rows
      than there are tables are booked for it. */
  lemma OpenSlotsMembership(rows: seq<Booking>, date: string)
    ensures forall t :: t in Without(AllSlots, FullSlots(rows, date)) <==> t in AllSlots && CountRows(rows, date, t) < |AllTables|
  {
    forall t ensures t in FullSlots(rows, date) <==> CountRows(rows, date, t) >= |AllTables| {
    }
  }

  lemma {:induction false} SubsequenceOfSelf<T>(s: seq<T>)
    ensures SubsequenceOf(s, s)
  {
    if s != [] {
      SubsequenceOfSelf(s[1..]);
    }
  }

  lemma {:induction false} WithoutNothing<T(!new)>(s: seq<T>)
    ensures Without(s, {}) == s
  {
    if s != [] {
      WithoutNothing(s[1..]);
    }
  }

  lemma FullAmongSnoc(gs: seq<SlotCount>, i: nat)
    requires i < |gs|
    ensures FullAmong(gs[..i + 1]) == FullAmong(gs[..i]) + (if gs[i].booked >= |AllTables| then {gs[i].time} else {})
  {
    assert gs[..i + 1] == gs[..i] + [gs[i]];
  }

  /** The groups' full times are exactly the full slots. */
  lemma FullAmongGroups(rows: seq<Booking>, date: string)
    ensures FullAmong(GroupByTime(rows, date)) == FullSlots(rows, date)
  {
    var g := GroupByTime(rows, date);
    forall t ensures t in FullAmong(g) <==> t in FullSlots(rows, date) {
      if t in FullSlots(rows, date) {
        assert HasGroup(g, t);
        var j :| 0 <= j < |g| && g[j].time == t;
        assert t in FullAmong(g);
      }
      if t in FullAmong(g) {
        var j :| 0 <= j < |g| && g[j].booked >= |AllTables| && g[j].time == t;
        assert HasGroup(g, t);
      }
    }
  }

  lemma TableCatalogSet()
    ensures (set t | t in AllTables) == {1, 2, 3, 4, 5}
    ensures |set t | t in AllTables| == |AllTables|
  {
    assert (set t | t in AllTables) == {1, 2, 3, 4, 5};
  }

  lemma SubsetCard<T>(a: set<T>, b: set<T>)
    requires a <= b
    ensures |a| <= |b|
  {
    assert b == a + (b - a);
  }

  /** A slot that the slot query offers (fewer rows than tables) has a free
      catalog table. */
  lemma UnfullSlotHasFreeTable(rows: seq<Booking>, date: string, time: string)
    requires CountRows(rows, date, time) < |AllTables|
    ensures AvailableTables(rows, date, time) != []
  {
    var booked := BookedTables(rows, date, time);
    var taken := set t | t in booked;
    var catalog := set t | t in AllTables;
    ElementCount(booked);
    TableCatalogSet();
    if AvailableTables(rows, date, time) == [] {
      assert catalog <= taken;
      SubsetCard(catalog, taken);
      assert false;
    }
  }

  /** Without double bookings and with every booked table from the catalog,
      a slot the slot query drops has no free table. */
  lemma FullSlotHasNoFreeTable(rows: seq<Booking>, date: string, time: string)
    requires NoDoubleBooking(rows)
    requires forall k :: 0 <= k < |rows| && AtSlot(rows[k], date, time) ==> rows[k].details.tableNo in AllTables
    requires CountRows(rows, date, time) >= |AllTables|
    ensures AvailableTables(rows, date, time) == []
  {
    var booked := BookedTables(rows, date, time);
    var taken := set t | t in booked;
    TakenTablesAreCatalog(rows, date, time);
    WithoutAllDropped(AllTables, taken);
  }

  /** Under the same conditions the booked tables are the whole catalog. */
  lemma TakenTablesAreCatalog(rows: seq<Booking>, date: string, time: string)
    requires NoDoubleBooking(rows)
    requires forall k :: 0 <= k < |rows| && AtSlot(rows[k], date, time) ==> rows[k].details.tableNo in AllTables
    requires CountRows(rows, date, time) >= |AllTables|
    ensures (set t | t in BookedTables(rows, date, time)) == set t | t in AllTables
  {
    var booked := BookedTables(rows, date, time);
    var taken := set t | t in booked;
    var catalog := set t | t in AllTables;
    BookedTablesDistinct(rows, date, time);
    ElementCount(booked);
    TableCatalogSet();
    assert |taken| >= |catalog|;
    assert taken <= catalog by {
      forall t | t in taken ensures t in catalog {
        assert SeatTaken(rows, date, time, t);
      }
    }
    if taken != catalog {
      assert !(catalog <= taken);
      var x :| x in catalog && x !in taken;
      SubsetCard(taken, catalog - {x});
    }
  }

  lemma {:induction false} BookedTablesDistinct(rows: seq<Booking>, date: string, time: string)
    requires NoDoubleBooking(rows)
    ensures Distinct(BookedTables(rows, date, time))
  {
    if rows != [] {
      var tail := rows[1..];
      assert NoDoubleBooking(tail) by {
        forall i, j | 0 <= i < j < |tail|
          ensures !AtSeat(tail[j], tail[i].details.date, tail[i].details.time, tail[i].details.tableNo)
        {
          assert tail[i] == rows[i + 1] && tail[j] == rows[j + 1];
        }
      }
      BookedTablesDistinct(tail, date, time);
      var rest := BookedTables(tail, date, time);
      if AtSlot(rows[0], date, time) {
        var t := rows[0].details.tableNo;
        assert t !in rest by {
          forall k | 0 <= k < |tail| ensures !AtSeat(tail[k], date, time, t) {
            assert tail[k] == rows[k + 1];
          }
        }
        var r := [t] + rest;
        forall i, j | 0 <= i < j < |r| ensures r[i] != r[j] {
          if i == 0 { assert r[j] == rest[j - 1]; } else { assert r[i] == rest[i - 1] && r[j] == rest[j - 1]; }
        }
      }
    }
  }

  /** Five bookings of one slot at tables 6 to 10, which are not in the catalog. */
  function OffCatalogRows(req: BookingRequest): seq<Booking> {
    [ Booking(1, req.(tableNo := 6), Pending), Booking(2, req.(tableNo := 7), Pending),
      Booking(3, req.(tableNo := 8), Pending), Booking(4, req.(tableNo := 9), Pending),
      Booking(5, req.(tableNo := 10), Pending) ]
  }

  /** The slot query counts rows, not distinct catalog tables: five bookings
      of tables outside the catalog drop the slot while every catalog table
      is still free. */
  lemma OffCatalogRowsFillSlot(req: BookingRequest)
    ensures var rows := OffCatalogRows(req);
      && WellFormed(rows, 6)
      && CountRows(rows, req.date, req.time) >= |AllTables|
      && AvailableTables(rows, req.date, req.time) == AllTables
  {
    var rows := OffCatalogRows(req);
    assert WellFormed(rows, 6);
    assert CountRows(rows[4..], req.date, req.time) == 1;
    assert CountRows(rows[3..], req.date, req.time) == 2 by { assert rows[3..][1..] == rows[4..]; }
    assert CountRows(rows[2..], req.date, req.time) == 3 by { assert rows[2..][1..] == rows[3..]; }
    assert CountRows(rows[1..], req.date, req.time) == 4 by { assert rows[1..][1..] == rows[2..]; }
    assert CountRows(rows, req.date, req.time) == 5;
    var booked := BookedTables(rows, req.date, req.time);
    assert forall t :: t in booked ==> 6 <= t <= 10;
    WithoutNoneDropped(AllTables, set t | t in booked);
  }
}
