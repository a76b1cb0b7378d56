/** A customer's session from booking to food payment, as a client of the
    two tables: what their contracts alone let a caller conclude. */
module ExampleFlow {
  import opened Wrappers
  import opened Bookings
  import opened FoodOrders

  method BookAndOrder(req: BookingRequest)
    requires req.date == "2024-06-01" && req.time == "10:00 AM - 12:00 PM" && req.tableNo == 3
  {
    var bookings := new BookingTable();
    var first := bookings.Submit(req);
    assert first == Created(1);
    assert bookings.rows == [Booking(1, req, Pending)];

    // the same seat again is refused and inserts nothing
    var second := bookings.Submit(req);
    assert AtSeat(bookings.rows[0], req.date, req.time, req.tableNo);
    assert second == Conflict;
    assert |bookings.rows| == 1;

    bookings.PayBooking(first.id);
    assert bookings.rows[0].status == Paid;

    var orders := new FoodOrderTable();
    orders.Add(first.id, "Coke", 50);
    orders.Add(first.id, "Coke", 50);
    AddTwiceOneRow([], 1, first.id, "Coke", 50, 50);
    assert orders.rows == [FoodOrder(1, first.id, "Coke", 50, 2, false)];

    var total, confirmed := orders.ConfirmFoodPayment(first.id);
    assert total == 100 && confirmed;
    assert orders.rows[0].paid && orders.rows[0].quantity == 2;
  }
}
