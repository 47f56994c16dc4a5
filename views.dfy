/**
 * parking/views.py: the park, remove and current-parkings endpoints, each
 * run as one sequential, atomic call against the store. The clock is the
 * `now` argument; an id read from the JSON request body is `None` when the
 * key is absent.
 */
module Views {
  import opened Wrappers
  import opened ParkingModels
  import opened Billing
  import opened Store

  /** `if not value`: an absent, null or zero id in the request body counts as missing. */
  predicate Given(field: Option<int>) {
    field.Some? && field.value != 0
  }

  /**
   * The checks of the park endpoint, in the order it runs them; the first
   * that fails is the rejection. The entry gate defaults to 0 when absent.
   */
  function ParkRejection(store: ParkingStore, vehicleId: Option<int>, parkingLotId: Option<int>, entryGate: Option<int>)
    : (e: Option<Error>)
    reads store
    ensures e.None? <==>
      && Given(vehicleId) && Given(parkingLotId)
      && IsVehicle(store.vehicleCount, vehicleId.value)
      && IsLot(store.lots, parkingLotId.value)
      && 1 <= entryGate.GetOr(0) <= store.lots[parkingLotId.value - 1].totalEntryGate
      && !HasOpenTicket(store.tickets, vehicleId.value)
      && exists i | 0 <= i < |store.slots| :: Free(store.slots[i], parkingLotId.value)
  {
    if !Given(vehicleId) || !Given(parkingLotId) then Some(MissingField)
    else if !IsVehicle(store.vehicleCount, vehicleId.value) then Some(VehicleNotFound)
    else if !IsLot(store.lots, parkingLotId.value) then Some(LotNotFound)
    else if !(1 <= entryGate.GetOr(0) <= store.lots[parkingLotId.value - 1].totalEntryGate) then Some(InvalidGate)
    else if HasOpenTicket(store.tickets, vehicleId.value) then Some(VehicleAlreadyParked)
    else if FirstFreeSlot(store.slots, parkingLotId.value).None? then Some(NoAvailableSlots)
    else None
  }

  /** A request without an entry gate is always rejected: the default gate 0 is out of range. */
  lemma MissingGateAlwaysRejected(store: ParkingStore, vehicleId: Option<int>, parkingLotId: Option<int>)
    ensures ParkRejection(store, vehicleId, parkingLotId, None).Some?
    ensures Given(vehicleId) && Given(parkingLotId) && IsVehicle(store.vehicleCount, vehicleId.value)
            && IsLot(store.lots, parkingLotId.value)
            ==> ParkRejection(store, vehicleId, parkingLotId, None) == Some(InvalidGate)
  {
  }

  /**
   * The gate is checked before the open-ticket check: a parked vehicle asking
   * for a bad gate is told about the gate.
   */
  lemma GateCheckedBeforeAlreadyParked(store: ParkingStore, vehicle: VehicleId, lot: LotId, gate: int)
    requires vehicle != 0 && lot != 0
    requires IsVehicle(store.vehicleCount, vehicle) && IsLot(store.lots, lot)
    requires HasOpenTicket(store.tickets, vehicle)
    ensures ParkRejection(store, Some(vehicle), Some(lot), Some(gate)) ==
              if 1 <= gate <= store.lots[lot - 1].totalEntryGate then Some(VehicleAlreadyParked) else Some(InvalidGate)
  {
  }

  /**
   * Once the earlier checks pass, the park endpoint answers "No available
   * parking slots" exactly when no slot of the lot is available.
   */
  lemma NoAvailableSlotsIffLotFull(store: ParkingStore, vehicle: VehicleId, lot: LotId, gate: int)
    requires vehicle != 0 && lot != 0
    requires IsVehicle(store.vehicleCount, vehicle) && IsLot(store.lots, lot)
    requires 1 <= gate <= store.lots[lot - 1].totalEntryGate && !HasOpenTicket(store.tickets, vehicle)
    ensures (ParkRejection(store, Some(vehicle), Some(lot), Some(gate)) == Some(NoAvailableSlots))
        <==> (forall i | 0 <= i < |store.slots| :: !Free(store.slots[i], lot))
  {
  }

  /**
   * `ParkVehicleAPI.post`. On a rejection nothing changes. Otherwise the first
   * available slot of the lot is marked unavailable and, unless inserting the
   * ticket fails (`ticketCreateFails`, in which case the slot is made available
   * again), one open, unbilled ticket for that slot, vehicle and gate is
   * appended and its id returned.
   */
  method ParkVehicle(
    store: ParkingStore, vehicleId: Option<int>, parkingLotId: Option<int>, entryGate: Option<int>,
    now: Micros, ticketCreateFails: bool)
    returns (r: Result<TicketId, Error>)
    requires store.Valid()
    modifies store
    ensures store.Valid()
    ensures store.lots == old(store.lots) && store.vehicleCount == old(store.vehicleCount)
    ensures LedgerGrows(old(store.tickets), store.tickets)
    ensures var e := old(ParkRejection(store, vehicleId, parkingLotId, entryGate));
      e.Some? ==> r == Err(e.value) && unchanged(store)
    ensures var e := old(ParkRejection(store, vehicleId, parkingLotId, entryGate));
      e.None? && ticketCreateFails ==> r == Err(TicketCreationFailed) && unchanged(store)
    ensures var e := old(ParkRejection(store, vehicleId, parkingLotId, entryGate));
      e.None? && !ticketCreateFails ==>
        var k := old(FirstFreeSlot(store.slots, parkingLotId.value)).value;
        && r == Ok(|store.tickets|)
        && store.slots == Occupy(old(store.slots), k)
        && store.tickets == old(store.tickets) + [NewTicket(k, vehicleId.value, now, entryGate.value)]
  {
    if !Given(vehicleId) || !Given(parkingLotId) {
      return Err(MissingField);
    }
    var vehicle, lot := vehicleId.value, parkingLotId.value;
    if !IsVehicle(store.vehicleCount, vehicle) {
      return Err(VehicleNotFound);
    }
    if !IsLot(store.lots, lot) {
      return Err(LotNotFound);
    }
    var gate := entryGate.GetOr(0);
    if !(1 <= gate <= store.lots[lot - 1].totalEntryGate) {
      return Err(InvalidGate);
    }
    if HasOpenTicket(store.tickets, vehicle) {
      return Err(VehicleAlreadyParked);
    }
    var availableSlot := FirstFreeSlot(store.slots, lot);
    if availableSlot.None? {
      return Err(NoAvailableSlots);
    }
    var k := availableSlot.value;
    ParkKeepsConsistent(store.lots, store.slots, store.tickets, store.vehicleCount, k, vehicle, now, gate);

    store.slots := Occupy(store.slots, k);
    if ticketCreateFails {
      // the compensating write of the except branch
      store.slots := Release(store.slots, k);
      assert store.slots == old(store.slots);
      return Err(TicketCreationFailed);
    }
    store.tickets := store.tickets + [NewTicket(k, vehicle, now, gate)];
    r := Ok(|store.tickets|);
  }

  /** The checks of the remove endpoint, in order. */
  function RemoveRejection(store: ParkingStore, ticketId: Option<int>): (e: Option<Error>)
    reads store
    ensures e.None? <==> Given(ticketId) && IsTicket(store.tickets, ticketId.value) && IsOpen(store.tickets[ticketId.value - 1])
    ensures (Given(ticketId) && IsTicket(store.tickets, ticketId.value) && !IsOpen(store.tickets[ticketId.value - 1]))
        ==> e == Some(AlreadyRemoved)
  {
    if !Given(ticketId) then Some(MissingField)
    else if !IsTicket(store.tickets, ticketId.value) then Some(TicketNotFound)
    else if !IsOpen(store.tickets[ticketId.value - 1]) then Some(AlreadyRemoved)
    else None
  }

  /**
   * `RemoveVehicleAPI.post`. On a rejection nothing changes. Otherwise the
   * ticket gets exit time `now` and is billed the whole hours since its entry
   * at its lot's rate, its slot becomes available again, and the closed
   * ticket is returned.
   */
  method RemoveVehicle(store: ParkingStore, ticketId: Option<int>, now: Micros) returns (r: Result<Ticket, Error>)
    requires store.Valid()
    modifies store
    ensures store.Valid()
    ensures store.lots == old(store.lots) && store.vehicleCount == old(store.vehicleCount)
    ensures LedgerGrows(old(store.tickets), store.tickets)
    ensures var e := old(RemoveRejection(store, ticketId));
      e.Some? ==> r == Err(e.value) && unchanged(store)
    ensures old(RemoveRejection(store, ticketId)).None? ==>
      var id := ticketId.value;
      var t := old(store.tickets[id - 1]);
      var closed := Close(t, now, old(RateOf(store.lots, store.slots, t)));
      && r == Ok(closed)
      && store.tickets == old(store.tickets)[id - 1 := closed]
      && store.slots == Release(old(store.slots), t.parkingSlot)
  {
    if !Given(ticketId) {
      return Err(MissingField);
    }
    var id := ticketId.value;
    if !IsTicket(store.tickets, id) {
      return Err(TicketNotFound);
    }
    var ticket := store.tickets[id - 1];
    if !IsOpen(ticket) {
      return Err(AlreadyRemoved);
    }
    CloseKeepsConsistent(store.lots, store.slots, store.tickets, store.vehicleCount, id, now);

    var elapsed := now - ticket.entryTime;
    var hoursToCharge := HoursToCharge(elapsed);
    var totalCharge := RateOf(store.lots, store.slots, ticket) * hoursToCharge;
    ticket := ticket.(exitTime := Some(now), totalCharge := totalCharge);
    store.tickets := store.tickets[id - 1 := ticket];
    store.slots := Release(store.slots, ticket.parkingSlot);
    r := Ok(ticket);
  }

  /** Whether ticket `t` is listed by the current-parkings query for `lot` (all lots when None). */
  predicate InScope(slots: seq<ParkingSlot>, t: Ticket, lot: Option<LotId>) {
    && IsOpen(t)
    && (lot.Some? ==> IsSlot(slots, t.parkingSlot) && slots[t.parkingSlot - 1].parkingLot == lot.value)
  }

  /**
   * The ids of the tickets among the first `n` that the current-parkings
   * query returns, in primary-key order.
   */
  function OpenTicketIds(slots: seq<ParkingSlot>, tickets: seq<Ticket>, lot: Option<LotId>, n: nat): (ids: seq<TicketId>)
    requires n <= |tickets|
    ensures forall k | 0 <= k < |ids| :: 1 <= ids[k] <= n && InScope(slots, tickets[ids[k] - 1], lot)
    ensures forall id | 1 <= id <= n && InScope(slots, tickets[id - 1], lot) :: id in ids
    ensures forall k, m | 0 <= k < m < |ids| :: ids[k] < ids[m]
  {
    if n == 0 then []
    else
      var prev := OpenTicketIds(slots, tickets, lot, n - 1);
      var last: seq<TicketId> := if InScope(slots, tickets[n - 1], lot) then [n] else [];
      assert forall k | 0 <= k < |prev| :: (prev + last)[k] == prev[k];
      prev + last
  }

  /** One entry of `current_parkings`: the ticket joined with its slot and lot. */
  datatype CurrentParking = CurrentParking(
    ticketId: TicketId,
    vehicleId: VehicleId,
    parkingLotName: string,
    parkingLotId: LotId,
    slotNumber: int,
    entryGate: int,
    entryTime: Micros,
    chargePerHour: Cents)

  /** The response body: the list and its length. */
  datatype CurrentParkings = CurrentParkings(currentParkings: seq<CurrentParking>, totalCount: int)

  /** Ticket `id` exists and its slot and lot can be joined to it. */
  predicate Joinable(lots: seq<ParkingLot>, slots: seq<ParkingSlot>, tickets: seq<Ticket>, id: TicketId) {
    && IsTicket(tickets, id) && IsSlot(slots, tickets[id - 1].parkingSlot)
    && IsLot(lots, slots[tickets[id - 1].parkingSlot - 1].parkingLot)
  }

  function Row(lots: seq<ParkingLot>, slots: seq<ParkingSlot>, tickets: seq<Ticket>, id: TicketId): CurrentParking
    requires Joinable(lots, slots, tickets, id)
  {
    var t := tickets[id - 1];
    var slot := slots[t.parkingSlot - 1];
    var lot := lots[slot.parkingLot - 1];
    CurrentParking(id, t.vehicle, lot.name, slot.parkingLot, slot.slotNumber, t.entryGate, t.entryTime, lot.chargePerHour)
  }

  lemma ListedTicketsJoinable(
    lots: seq<ParkingLot>, slots: seq<ParkingSlot>, tickets: seq<Ticket>, vehicleCount: nat, lot: Option<LotId>)
    requires Consistent(lots, slots, tickets, vehicleCount)
    ensures var ids := OpenTicketIds(slots, tickets, lot, |tickets|);
      forall k | 0 <= k < |ids| :: Joinable(lots, slots, tickets, ids[k])
  {
    var ids := OpenTicketIds(slots, tickets, lot, |tickets|);
    forall k | 0 <= k < |ids|
      ensures Joinable(lots, slots, tickets, ids[k])
    {
      assert ids[k] in ids;
      var t := tickets[ids[k] - 1];
      assert IsSlot(slots, t.parkingSlot);
      assert IsLot(lots, slots[t.parkingSlot - 1].parkingLot);
    }
  }

  /** The loop of `CurrentParkingsAPI.get` that turns each listed ticket into its row. */
  method JoinRows(lots: seq<ParkingLot>, slots: seq<ParkingSlot>, tickets: seq<Ticket>, ids: seq<TicketId>)
    returns (rows: seq<CurrentParking>)
    requires forall k | 0 <= k < |ids| :: Joinable(lots, slots, tickets, ids[k])
    ensures |rows| == |ids|
    ensures forall k | 0 <= k < |rows| :: rows[k] == Row(lots, slots, tickets, ids[k])
  {
    rows := [];
    var k := 0;
    while k < |ids|
      invariant 0 <= k <= |ids|
      invariant |rows| == k
      invariant forall m | 0 <= m < k :: rows[m] == Row(lots, slots, tickets, ids[m])
    {
      rows := rows + [Row(lots, slots, tickets, ids[k])];
      k := k + 1;
    }
  }

  /**
   * `CurrentParkingsAPI.get`. `parkingLotId` is the query parameter, None when
   * absent or empty; a given id is looked up even when it is "0". The result
   * lists every open ticket (of that lot, if one is given) once, in ticket
   * order, and its count.
   */
  method CurrentParkingsQuery(store: ParkingStore, parkingLotId: Option<int>) returns (r: Result<CurrentParkings, Error>)
    requires store.Valid()
    ensures r.Err? <==> parkingLotId.Some? && !IsLot(store.lots, parkingLotId.value)
    ensures r.Err? ==> r.error == LotNotFound
    ensures r.Ok? ==>
      var ids := OpenTicketIds(store.slots, store.tickets, parkingLotId, |store.tickets|);
      var rows := r.value.currentParkings;
      && |rows| == |ids|
      && (forall k | 0 <= k < |rows| ::
            Joinable(store.lots, store.slots, store.tickets, ids[k]) && rows[k] == Row(store.lots, store.slots, store.tickets, ids[k]))
      && r.value.totalCount == |rows|
  {
    if parkingLotId.Some? && !IsLot(store.lots, parkingLotId.value) {
      return Err(LotNotFound);
    }
    var currentTickets := OpenTicketIds(store.slots, store.tickets, parkingLotId, |store.tickets|);
    ListedTicketsJoinable(store.lots, store.slots, store.tickets, store.vehicleCount, parkingLotId);
    var parkingsData := JoinRows(store.lots, store.slots, store.tickets, currentTickets);
    r := Ok(CurrentParkings(parkingsData, |parkingsData|));
  }

  /** A ticket is listed exactly when it is open (and, given a lot, parked in that lot). */
  lemma CurrentParkingsAreExactlyOpenTickets(slots: seq<ParkingSlot>, tickets: seq<Ticket>, lot: Option<LotId>, id: TicketId)
    ensures id in OpenTicketIds(slots, tickets, lot, |tickets|) <==> IsTicket(tickets, id) && InScope(slots, tickets[id - 1], lot)
  {
    var ids := OpenTicketIds(slots, tickets, lot, |tickets|);
    if id in ids {
      var k :| 0 <= k < |ids| && ids[k] == id;
      assert InScope(slots, tickets[ids[k] - 1], lot);
    }
  }
}
