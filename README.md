# Parking lot engine — a Dafny model

This project models the slot-allocation and ticket-lifecycle engine of a
Django parking-lot service: lots, the numbered slots each lot owns, and the
tickets that record one parking session each. A lot is provisioned with its
capacity and hourly rate (the model adds its number of entry gates), and a post-save handler
materialises its slots. Parking a vehicle validates the request, claims the
lot's first available slot and opens a ticket. Removing it closes the ticket,
bills every started hour at the lot's rate and frees the slot. The
current-parkings query lists the open tickets.

The database is the class `Store.ParkingStore`, whose fields are the lot,
slot and ticket tables (sequences; the row with primary key `k` is at index
`k - 1`) and the number of registered vehicles. Its invariant
`Store.Consistent` holds after every operation, except after a failed ticket
insert in the serializer's create, which nothing undoes (`Serializers.Create`):

- every foreign key points at an existing row;
- a slot is unavailable exactly when an open ticket references it, and no two
  open tickets share a slot, so an unavailable slot has exactly one open ticket
  (`Store.ConsistentCounts`);
- no vehicle holds two open tickets.

`Store.LedgerGrows` states what no operation may do to the ticket ledger. It
may not change a ticket's slot, vehicle, entry time or gate. It may not touch
a closed ticket. It may only append new tickets.

Modules follow the source files:

- `ParkingModels` (models.py): the records.
- `Billing`: the charge arithmetic shared by views.py and serializers.py.
- `Store`: the tables, the queries run against them, and the invariant.
- `Signals` (signals.py): the post-save handler.
- `Services` (services.py): lot creation, plus vehicle registration from the vehicle app.
- `Views` (views.py): the three endpoints.
- `Serializers` (serializers.py): the serializer form of the same operations.
- `Scenarios`: a client that runs a one-slot lot through park, lot-full and remove-after-2h10m.

Representation choices:

- Time is integer microseconds. The clock is a `now` argument.
- Money is integer cents. The source's two-decimal `Decimal` values are exact in cents.
- The source reads and writes `total_entry_gate` on lots and `entry_gate` on
  tickets (parking/views.py:31,65, parking/serializers.py:44,84). The model
  classes do not declare these columns. The model adds them as
  `ParkingLot.totalEntryGate` and `Ticket.entryGate`. Nothing in the source
  writes `total_entry_gate`, and `create_parking_lot` takes only a name, a
  capacity and a rate; `Services.CreateParkingLot` takes the gate count as a
  fourth argument of its own and stores any integer given, including values
  below 1.
- An id in a JSON request body is an `Option<int>`. Python's `if not value`
  treats an absent id, a null id and the id 0 alike (`Views.Given`). The
  current-parkings lot id is a query-string value, so "0" is truthy there and
  is looked up, which finds nothing.
- The model follows the code, including what it does not check. Neither the
  capacity nor the rate of a new lot is validated. A
  negative elapsed time is billed rather than rejected. Releasing a slot never
  checks that it was taken. The current-parkings queryset has no ordering; the
  model lists tickets in primary-key order.

## Model

| member | source | states |
|---|---|---|
| `Billing.HoursToCharge` | parking/views.py:104-109 | the hours billed are the ceiling of the elapsed hours for a non-negative duration, exactly the hours for a whole number of hours, and one more than the ceiling for a negative duration that is not whole |
| `Billing.TotalCharge` | parking/views.py:111 | the charge is the hourly rate times the billed hours: for a positive rate and a stay of non-negative length it is at least the pro-rata amount and less than one more hour's rate above it, and a whole number of hours costs exactly the pro-rata amount |
| `Billing.ChargeMonotonic` | parking/views.py:104-111 | for a non-negative rate the charge is non-negative and never decreases as the stay gets longer |
| `Billing.WholeHoursBilledExactly` | parking/views.py:104-111 | a stay of exactly n hours costs n times the rate |
| `Billing.ChargeExamples` | parking/views.py:104-111 | zero time costs 0, one second costs one hour, 90 minutes cost two hours, 2h10m at 20.00/h costs 60.00 |
| `Billing.NegativeHalfHourBillsOneHour` | parking/views.py:105-109 | an exit half an hour before the entry is billed one full hour, not rejected |
| `Store.FirstFreeSlot` | parking/views.py:46-49 | returns an available slot of the lot with no available slot of the lot before it, and None exactly when the lot has no available slot |
| `Store.OccupiedWithoutTicketBreaksConsistency` | parking/serializers.py:76-85 | marking an available slot taken without appending a ticket for it leaves the store inconsistent |
| `Store.ParkKeepsConsistent` | parking/views.py:57-66 | marking an available slot taken and appending an open ticket for a vehicle without one keeps the store consistent and only appends to the ledger |
| `Store.CloseKeepsConsistent` | parking/views.py:113-120 | closing an open ticket and freeing its slot keeps the store consistent and changes no other ticket |
| `Store.AddSlotsKeepsConsistent` | parking/signals.py:13-14 | appending available slots of existing lots keeps the store consistent |
| `Store.ConsistentCounts` | parking/models.py:12-23 | in a consistent store an unavailable slot is referenced by exactly one open ticket, an available one by none, and each vehicle holds at most one open ticket |
| `Store.LedgerGrowsTransitive` | parking/models.py:18-23 | the ledger guarantee (entry data fixed, closed tickets frozen, append only) composes across operations |
| `Store.ParkingStore.constructor` | parking/models.py:6-23 | an empty database is consistent |
| `Signals.NewSlots` | parking/signals.py:13-14 | the handler's slots for a lot are numbered 0..capacity-1 in order, all available, and there are none for a capacity of 0 or less |
| `Signals.SavedLotSlots` | parking/signals.py:11-14 | after the handler runs for a lot, that lot's slots are its old ones followed by a fresh 0..capacity-1 run, and every other lot's slots are unchanged |
| `Signals.ResaveDuplicatesNumbers` | parking/signals.py:12-14 | because the handler ignores `created`, saving a lot twice leaves 2·capacity slots with every number twice |
| `Signals.PostParkingLotCreate` | parking/signals.py:11-14 | appends exactly the lot's `NewSlots` to the slot table, touches nothing else, and keeps the store consistent |
| `Services.CreateParkingLot` | parking/services.py:6-11 | appends exactly one lot with the given name, capacity, rate and gate count and returns its id; the new lot then owns exactly the slots 0..capacity-1, all available; other lots' slots and all tickets are unchanged |
| `Services.RegisterVehicle` | vehicle/services.py:4-7 | a new vehicle gets the next id and holds no open ticket |
| `Views.ParkRejection` | parking/views.py:16-55 | a park request is accepted exactly when both ids are given, vehicle and lot exist, 1 <= gate <= the lot's gate count (gate 0 when absent), the vehicle has no open ticket and the lot has an available slot |
| `Views.MissingGateAlwaysRejected` | parking/views.py:18-35 | a request without a gate is always rejected, and with existing vehicle and lot the error is the gate error |
| `Views.GateCheckedBeforeAlreadyParked` | parking/views.py:30-43 | for a parked vehicle the answer is the gate error if the gate is bad, else "already parked" |
| `Views.NoAvailableSlotsIffLotFull` | parking/views.py:45-55 | once the earlier checks pass, "No available parking slots" is the answer exactly when no slot of the lot is available |
| `Views.ParkVehicle` | parking/views.py:15-82 | a rejection leaves the store unchanged; a failed ticket insert restores the slot and leaves the store unchanged; on success the lot's first available slot becomes unavailable and exactly one open, unbilled ticket on it for that vehicle and gate is appended; the store stays consistent |
| `Views.RemoveRejection` | parking/views.py:87-102 | a remove request is accepted exactly when the ticket id is given, the ticket exists and is open; a closed ticket gets "already removed" |
| `Views.RemoveVehicle` | parking/views.py:86-129 | a rejection leaves the store unchanged; otherwise the ticket gets exit time `now` and charge rate × billed hours since entry, its slot becomes available, nothing else changes, and the store stays consistent |
| `Views.OpenTicketIds` | parking/views.py:137-147 | the listed ids are exactly the open tickets (of the given lot, if any), each once, in increasing order |
| `Views.CurrentParkingsAreExactlyOpenTickets` | parking/views.py:137-147 | a ticket is listed iff it exists, is open and, when a lot is given, is parked in that lot |
| `Views.JoinRows` | parking/views.py:148-161 | the loop yields one row per listed ticket, in the same order, each the ticket joined with its slot and lot |
| `Views.CurrentParkingsQuery` | parking/views.py:133-167 | an unknown given lot is rejected; otherwise the rows are the joined records of exactly the listed tickets, in order, and `total_count` is their number |
| `Serializers.ValidateVehicleId` | parking/serializers.py:13-25 | accepts exactly an existing vehicle without an open ticket; "not found" for a missing vehicle, "already parked" for a parked one |
| `Serializers.ValidateParkingLotId` | parking/serializers.py:27-33 | accepts exactly an existing lot |
| `Serializers.Validate` | parking/serializers.py:35-62 | accepts exactly an existing lot with the gate in 1..gate count and an available slot; a bad gate gets the gate error |
| `Serializers.ValidatePark` | parking/serializers.py:8-62 | the whole validation accepts exactly the requests the checks allow (gate 1 when absent) and yields the data with the defaulted gate; a rejection carries one or two errors |
| `Serializers.ViewAndSerializerAcceptAlike` | parking/serializers.py:13-62 | with all three fields given, the serializer accepts exactly the requests the view accepts |
| `Serializers.DefaultGateDiffers` | parking/serializers.py:11 | without a gate the view rejects (default 0) while the serializer accepts with gate 1 |
| `Serializers.ParkedVehicleWithBadGate` | parking/serializers.py:20-47 | a parked vehicle with a bad gate gets the gate error from the view but "already parked" from the serializer |
| `Serializers.Create` | parking/serializers.py:64-87 | on validated data the lot's first available slot becomes unavailable in every case; when the insert succeeds one open ticket on it is appended and the store stays consistent; when it fails no ticket is added, nothing restores the slot, and the store is no longer consistent |
| `Serializers.ValidateTicketId` | parking/serializers.py:93-103 | accepts exactly an existing open ticket; "not found" for a missing one, "already removed" for a closed one |
| `Serializers.Update` | parking/serializers.py:105-127 | closes the validated ticket with the same exit time and charge as the view and frees its slot; the store stays consistent |
| `Serializers.ValidateQueryLotId` | parking/serializers.py:187-194 | an absent lot id is accepted; a given one exactly when the lot exists |

## Left out

- Concurrency and transactions: each operation is one sequential, atomic call, so the race between the slot lookup and the slot update is not modelled.
- Floating point: the source divides seconds by 3600 in floating point; the model bills exact microseconds, and the rounded `duration_hours` of the responses is not modelled.
- Decimal column limits: `max_digits=10` on money columns is not enforced; amounts are unbounded integers of cents.
- HTTP: response payloads, status codes and `select_related` are not modelled; errors are `Error` values, and `get_object_or_404` becomes a not-found error.
- Request typing: ids and gates are integers or absent (the serializer's ids are always given); string or malformed values, and an explicit null gate, are not modelled.
- Why a ticket insert fails is not visible; the view's except branch and the serializer's failing insert are driven by the `ticketCreateFails` argument.
- Views.ParkVehicle: a failed insert is modelled only as the caught `ValidationError` (parking/views.py:67), which restores the slot; any other exception from the insert leaves the slot unavailable with no ticket, as in `Serializers.Create`, and is not modelled for the view.
- Vehicle fields (serial number, type, registration time) and the vehicle CRUD endpoints are not modelled; vehicles are ids 1..n.
- The clock, `auto_now_add`, logging and the handler's print are not modelled; `now` is an argument.
- The seed command, URL routing and admin registration are framework wiring without logic.
- Deleting lots, slots or tickets is not modelled; no operation of the core deletes.
- The `capacity` field default of 10 is not modelled: `create_parking_lot` always passes a capacity.
