# Swiftcafe booking and ordering core, modelled in Dafny

Swiftcafe is a café web application. Customers register, reserve a table
for a time slot, order food against that reservation and pay through a UPI
QR code. This project models the logic inside its request handlers,
taken out of the Flask and MySQL plumbing:

- **Validation** (`validation.dfy`): the four input validators
  `is_valid_email`, `is_valid_name`, `is_valid_username` and
  `is_valid_phone`, and the `strip()`/`lower()` normalisation applied
  before them. The email validator is written as a direct check: the first
  `@`, then the last dot. It is proved to accept exactly the language of
  its regular expression.
- **Registration** (`registration.dfy`): the validation cascade of
  `api_register`. The first failing check, in a fixed order, decides the
  response.
- **Bookings** (`bookings.dfy`): the `bookings` table as a class holding a
  sequence of rows and the next auto-increment id. It covers submission
  (re-check the seat, then insert a `pending` row), the `paid` status
  update of `booking_payment`, and the two availability queries. The slot
  query is the source's loop, which removes full slots from a copy of
  `ALL_SLOTS`. The table query is the list comprehension over
  `ALL_TABLES`.
- **Food orders** (`food_orders.dfy`): the `food_orders` table as a class.
  The four cart actions of `menu` (`add`, `increase`, `decrease`,
  `delete`) are pure functions on the rows, and the class methods apply
  them. Also covered: the total Σ price × quantity and the `food_paid = 1`
  update of `food_payment`.
- `sequences.dfy` holds generic sequence facts: order-preserving filter,
  Python's `list.remove`, subsequences, and counting elements.
  `wrappers.dfy` holds `Option` and `Result`. `example_flow.dfy` is the
  booking-to-payment example written as a client of the two classes.

The session's `booking_id` is an explicit parameter. The fields the code
reads with `.get` (the registration body, the booking query string, the
menu form) are written as `""` or `None` when absent. The booking form is
read with `request.form[...]` (app.py:348-356), so a submission lacking a
field never reaches the model. Database rows are values.
Each `UPDATE`/`DELETE ... WHERE id=%s` acts on the row with that primary
key.

Behaviours of the code that the model keeps, although a reader might
expect otherwise:
- The food-payment total sums every row the query at app.py:599 selects,
  that is every row of the booking, whether its `food_paid` is 0 or 1.
- `is_valid_name` accepts the empty string. Only the earlier
  "All fields are required" check rejects an empty name.
- The comments at app.py:392 and app.py:401 speak of a slot whose tables are
  all taken. The code drops a slot when its number of rows
  (`COUNT(table_no)`) reaches `len(ALL_TABLES)`.
  `OffCatalogRowsFillSlot` shows the two differ once table numbers outside
  the catalog are booked: submission never checks `table_no` against
  `ALL_TABLES`.
- `increase`, `decrease` and `delete` select by order id alone, whatever
  booking is in the session. `add` on an existing row does not change its
  price.

## Model

| member | source | states |
|---|---|---|
| Validation.IsValidUsername | app.py:37-38 | accepts exactly strings of length at least 3 over `[A-Za-z0-9_]` |
| Validation.IsValidPhone | app.py:40-41 | accepts exactly strings of 10 ASCII digits |
| Validation.IsValidName | app.py:34-35 | accepts exactly strings of ASCII letters and white space, the empty string included |
| Validation.IsValidEmail | app.py:31-32 | an accepted email splits as `L@D.W` at its first `@` and its last dot |
| Validation.EmailMatchesPattern | app.py:31-32 | the validator accepts a string exactly when it is `L@D.W` with L, D non-empty over `[\w.-]` and W non-empty over `\w` |
| Validation.EmailHasOneAt | app.py:31-32 | an accepted email contains exactly one `@` |
| Validation.Strip | app.py:171-174 | the result is a slice of the input; what is cut off is white space; it neither starts nor ends with white space; it is empty exactly when the input is all white space |
| Validation.StripIdempotent | app.py:171-174 | stripping a stripped string changes nothing |
| Validation.LowerStripCommute | app.py:173 | `strip().lower()` equals `lower().strip()` |
| Validation.Lower | app.py:173 | same length; every ASCII capital becomes its lower-case letter, every other character is kept, and no capital remains |
| Validation.LowerKeepsEmailValidity | app.py:173 | lower-casing an email neither makes it valid nor invalid |
| Registration.FirstFailure | app.py:178-189 | accepted exactly when all six checks pass; otherwise the error names a failing check whose predecessors all pass |
| Registration.Normalize | app.py:171-176 | username, name, email and phone come out stripped, the email with no upper-case letter; role and password are passed on unchanged |
| Registration.Message | app.py:179-189 | each check's response text; the four validator failures, and only they, read "Invalid ..." |
| Registration.MessagesDistinct | app.py:179-189 | different checks answer with different texts |
| Registration.Validate | app.py:171-189 | the same, for the raw request after stripping username, name, email and phone and lower-casing the email; an accepted request yields those normalised fields |
| Registration.AcceptedFields | app.py:171-189 | an accepted user has a username of at least 3 characters over `[A-Za-z0-9_]`, a non-empty name of letters and white space, a phone of exactly 10 digits, a password of at least 6 characters, and an email of the `L@D.W` form with no upper-case letter; username, name, email and phone are stripped |
| Registration.EmptyNameRefusedAsMissing | app.py:178-183 | an all-blank name passes the name check yet the request fails with "All fields are required" |
| Registration.EmailCaseIgnored | app.py:173 | two requests whose emails differ only in letter case get the same answer |
| Bookings.SlotCatalogDistinct | app.py:327-334 | the slot labels are pairwise different |
| Bookings.SeatTaken | app.py:359-363 | the conflict query finds a row only for a slot whose row count is positive, and never in an empty table |
| Bookings.CountRows | app.py:393-398 | the row count of a date and time is positive exactly when some row has that date and time |
| Bookings.BookedTables | app.py:409-412 | one entry per row of the date and time; a table is listed exactly when a row books it |
| Bookings.AvailableTables | app.py:407-413 | a table is offered exactly when it is in `ALL_TABLES` and no row books it for the date and time; catalog order is kept |
| Bookings.GroupByTime | app.py:393-399 | one group per distinct time booked on the date, carrying that time's row count |
| Bookings.FullSlots | app.py:401-405 | a time is full on a date exactly when it has at least `len(ALL_TABLES)` rows there |
| Bookings.RemoveFullSlots | app.py:401-405 | the loop leaves the catalog minus the times of the full groups, in catalog order |
| Bookings.FullAmongGroups | app.py:393-405 | the full groups' times are exactly the slots with at least `len(ALL_TABLES)` rows on the date |
| Bookings.OpenSlotsMembership | app.py:401-405 | a slot stays offered exactly when it is in the catalog and has fewer rows than there are tables |
| Bookings.BookingTable.OpenSlots | app.py:391-405 | the slots offered for a date are the catalog minus its full slots |
| Bookings.BookingTable.BookingView | app.py:387-418 | the GET view: without a date the whole slot catalog; with one, the slots with fewer rows than tables, in catalog order; the table list filtered only when both date and time are given |
| Bookings.BookingTable.Submit | app.py:358-377 | a taken (date, time, table) gives the conflict answer and changes nothing; otherwise exactly one `pending` row is appended under a fresh id; no two rows ever share a seat |
| Bookings.WithStatusPaid | app.py:440 | rows with the given id become `paid`; ids and booking details of every row, and the status of every other row, are unchanged |
| Bookings.BookingTable.PayBooking | app.py:437-440 | the table becomes `WithStatusPaid` of its rows, and its invariant is kept |
| Bookings.UnfullSlotHasFreeTable | app.py:391-413 | a slot with fewer rows than tables has a free catalog table |
| Bookings.FullSlotHasNoFreeTable | app.py:391-413 | without double bookings, and with every booked table in the catalog, a slot dropped by the slot query has no free table |
| Bookings.TakenTablesAreCatalog | app.py:393-412 | under the same conditions the booked tables of a full slot are the whole catalog |
| Bookings.OffCatalogRowsFillSlot | app.py:393-405 | five rows with tables 6 to 10 drop a slot although every catalog table is free |
| FoodOrders.FindOrder | app.py:499-500 | finds a row with the order id, or reports that none has it |
| FoodOrders.FindItem | app.py:476-480 | finds a row of the booking and item, or reports that none exists |
| FoodOrders.AddItem | app.py:472-495 | an existing row of the booking and item gains one unit and keeps its price; otherwise one unpaid row with quantity 1 is appended; rows of other items are unchanged |
| FoodOrders.IncreaseQuantity | app.py:498-506 | the row with the id gains one unit; rows with other ids are unchanged; an unknown id changes nothing |
| FoodOrders.DecreaseQuantity | app.py:509-520 | the row with the id loses one unit if it has more than one, and is removed otherwise; rows with other ids are unchanged; an unknown id changes nothing |
| FoodOrders.DeleteOrder | app.py:523-524 | the row with the id is removed; rows with other ids are unchanged; an unknown id changes nothing |
| FoodOrders.MarkPaid | app.py:611 | exactly the booking's rows become paid; no other field of any row changes |
| FoodOrders.Total | app.py:599-601 | with non-negative prices and quantities the total is non-negative; a booking without rows totals 0 |
| FoodOrders.ApplyRequest | app.py:464-532 | a request inserts or deletes at most one row; `add` without a name or price, another action without an order id, or an unknown action changes nothing; a row of another booking changes only through an order-id action naming it |
| FoodOrders.AddKeepsWellFormed | app.py:476-495 | `add` keeps at most one row per (booking, item), unique ids below the next id, and every quantity at least 1 |
| FoodOrders.IncreaseKeepsWellFormed | app.py:498-506 | `increase` keeps the table invariant |
| FoodOrders.DecreaseKeepsWellFormed | app.py:509-520 | `decrease` keeps every quantity at least 1; a row at quantity 1 disappears |
| FoodOrders.DeleteKeepsWellFormed | app.py:523-524 | `delete` keeps the invariant and leaves no row with the id |
| FoodOrders.MarkPaidKeepsWellFormed | app.py:611 | marking paid keeps the invariant |
| FoodOrders.RequestKeepsWellFormed | app.py:464-532 | every menu request, whatever its action and fields, keeps the invariant |
| FoodOrders.AddTwiceOneRow | app.py:476-495 | adding a new item twice gives one row with quantity 2 at the first price |
| FoodOrders.TotalAfterAdd | app.py:476-495 | `add` raises its booking's total by one unit price, the stored price for an existing row, and no other total |
| FoodOrders.TotalAfterIncrease | app.py:498-506 | `increase` raises the total of the row's own booking by the row's price |
| FoodOrders.TotalAfterDecrease | app.py:509-520 | `decrease` lowers the total of the row's own booking by the row's price, whether it decrements or deletes |
| FoodOrders.TotalAfterDelete | app.py:523-524 | `delete` lowers the total of the row's own booking by the row's line total |
| FoodOrders.MarkPaidKeepsTotal | app.py:599-611 | marking paid moves no total, so a paid cart still shows its total |
| FoodOrders.TotalZeroIffEmpty | app.py:601-608 | with positive prices and quantities, a booking's total is 0 exactly when it has no rows |
| FoodOrders.FoodOrderTable.Add | app.py:476-495 | the table becomes `AddItem` of its rows; the next id advances only on insert; the invariant is kept |
| FoodOrders.FoodOrderTable.Increase | app.py:498-506 | the table becomes `IncreaseQuantity` of its rows; the invariant is kept |
| FoodOrders.FoodOrderTable.Decrease | app.py:509-520 | the table becomes `DecreaseQuantity` of its rows; the invariant is kept |
| FoodOrders.FoodOrderTable.Delete | app.py:523-524 | the table becomes `DeleteOrder` of its rows; the invariant is kept |
| FoodOrders.FoodOrderTable.HandleMenuPost | app.py:464-532 | the if/elif dispatch on the action; an action with a missing field, or an unknown action, changes nothing |
| FoodOrders.FoodOrderTable.ConfirmFoodPayment | app.py:597-615 | returns the booking's total over all its rows; a positive total marks exactly that booking's rows paid; a total of 0 changes nothing |

## Left out

- Flask routing, templates, redirects and the session object. The session's `booking_id` is a parameter, and the redirect to `/booking` without one is not modelled.
- MySQL connections, commits and the `try/except` with `rollback` (app.py:526-530). Each action either applies fully or, on a storage failure, which the model does not produce, leaves the table unchanged.
- Registration's insert, its duplicate-username/email `IntegrityError`, and password hashing and checking (werkzeug). These are storage and foreign library calls; `Validate` returns the fields that would be inserted.
- Login, logout and the profile page: session bookkeeping with no logic beyond a lookup and a hash check.
- QR image generation, base64 encoding, the UPI URI text and the fixed table price 500 shown on the booking payment page: presentational only.
- Concurrency: the check-then-insert race on bookings and the lost-update race on cart quantities are outside a sequential model.
- Floating point: `float(item_price)` and the float sums (app.py:473, 542). Prices are integers, as every catalog price is. A price string that fails to parse, and so is rolled back, cannot be expressed.
- Parsing: `int(request.form['table_no'])` raising on a non-number, and MySQL casting a non-numeric `order_id`. The model receives an integer table number and an optional natural order id.
- Registration bodies that raise before the cascade: a body that is not JSON, on which `data.get` fails (app.py:170), and a field that is not a string (`null`, a number, a boolean, a list), on which `.strip()` fails (app.py:171-174). The model receives strings with absent keys already defaulted.
- Booking submissions that lack a form field: `request.form[...]` answers 400 and nothing is inserted (app.py:348-356). `BookingTable.Submit` receives a complete request.
- String comparison in the database: the `WHERE` clauses on `date`, `time` and `item_name` (app.py:361, 396, 410, 477) are modelled as exact string equality. MySQL compares by column type and collation, and its default collations ignore letter case. The schema is not part of this model. `SeatTaken`, `CountRows`, `GroupByTime`, `FindItem` and the one-row-per-item invariant rest on exact equality.
- Python's Unicode semantics. `\w`, `isalpha`, `isspace` and `lower` are modelled on ASCII only, and `$` is modelled as the end of the string: `re.match` would also accept one trailing newline.
- `SELECT ... fetchone()` without `ORDER BY`. The model takes the first matching row, and ids and (booking, item) pairs are unique in every reachable table. The `GROUP BY` order is first appearance; the slot result does not depend on it.
- `MySQL AUTO_INCREMENT` may skip values. The model hands out consecutive ids; only their freshness is used.
- The admin dashboard aggregations, `my_bookings`, `my_orders`, and the contact and feedback inserts: read-only reporting and plain appends.
- The static menu dictionary (app.py:548-586): data only.
