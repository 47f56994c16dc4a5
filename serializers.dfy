/**
 * parking/serializers.py: the serializer form of the park and remove
 * operations and the current-parkings query check. The framework first runs
 * the per-field `validate_<field>` checks, collecting their errors in field
 * order; only when all fields pass does it run the cross-field `validate`;
 * `create` and `update` run only on data that passed validation.
 */
module Serializers {
  import opened Wrappers
  import opened ParkingModels
  import opened Billing
  import opened Store
  import Views

  /** The validated data of a park request. */
  datatype ParkRequest = ParkRequest(vehicleId: VehicleId, parkingLotId: LotId, entryGate: int)

  /** `ParkVehicleSerializer.validate_vehicle_id` */
  function ValidateVehicleId(store: ParkingStore, value: int): (r: Result<VehicleId, Error>)
    reads store
    ensures r.Ok? <==> IsVehicle(store.vehicleCount, value) && !HasOpenTicket(store.tickets, value)
    ensures r.Ok? ==> r.value == value
    ensures !IsVehicle(store.vehicleCount, value) ==> r == Err(VehicleNotFound)
    ensures IsVehicle(store.vehicleCount, value) && HasOpenTicket(store.tickets, value) ==> r == Err(VehicleAlreadyParked)
  {
    if !IsVehicle(store.vehicleCount, value) then Err(VehicleNotFound)
    else if HasOpenTicket(store.tickets, value) then Err(VehicleAlreadyParked)
    else Ok(value)
  }

  /** `ParkVehicleSerializer.validate_parking_lot_id` */
  function ValidateParkingLotId(store: ParkingStore, value: int): (r: Result<LotId, Error>)
    reads store
    ensures r.Ok? <==> IsLot(store.lots, value)
    ensures r.Ok? ==> r.value == value
    ensures r.Err? ==> r.error == LotNotFound
  {
    if IsLot(store.lots, value) then Ok(value) else Err(LotNotFound)
  }

  /** `ParkVehicleSerializer.validate`: the lot, the gate range, then a free slot. */
  function Validate(store: ParkingStore, parkingLotId: int, entryGate: int): (e: Option<Error>)
    reads store
    ensures e.None? <==>
      && IsLot(store.lots, parkingLotId)
      && 1 <= entryGate <= store.lots[parkingLotId - 1].totalEntryGate
      && exists i | 0 <= i < |store.slots| :: Free(store.slots[i], parkingLotId)
    ensures (IsLot(store.lots, parkingLotId) && !(1 <= entryGate <= store.lots[parkingLotId - 1].totalEntryGate))
        ==> e == Some(InvalidGate)
  {
    if !IsLot(store.lots, parkingLotId) then Some(LotNotFound)
    else if !(1 <= entryGate <= store.lots[parkingLotId - 1].totalEntryGate) then Some(InvalidGate)
    else if FirstFreeSlot(store.slots, parkingLotId).None? then Some(NoAvailableSlots)
    else None
  }

  function FieldError<T>(r: Result<T, Error>): seq<Error> {
    if r.Err? then [r.error] else []
  }

  /**
   * `ParkVehicleSerializer(data=...).is_valid()`: the field errors of
   * vehicle_id and parking_lot_id, or else the error of `validate`, or the
   * validated data. The entry gate defaults to 1 when absent.
   */
  function ValidatePark(store: ParkingStore, vehicleId: int, parkingLotId: int, entryGate: Option<int>)
    : (r: Result<ParkRequest, seq<Error>>)
    reads store
    ensures r.Ok? <==>
      && IsVehicle(store.vehicleCount, vehicleId) && !HasOpenTicket(store.tickets, vehicleId)
      && IsLot(store.lots, parkingLotId)
      && 1 <= entryGate.GetOr(1) <= store.lots[parkingLotId - 1].totalEntryGate
      && exists i | 0 <= i < |store.slots| :: Free(store.slots[i], parkingLotId)
    ensures r.Ok? ==> r.value == ParkRequest(vehicleId, parkingLotId, entryGate.GetOr(1))
    ensures r.Err? ==> 1 <= |r.error| <= 2
  {
    var fieldErrors := FieldError(ValidateVehicleId(store, vehicleId)) + FieldError(ValidateParkingLotId(store, parkingLotId));
    if fieldErrors != [] then Err(fieldErrors)
    else
      var gate := entryGate.GetOr(1);
      match Validate(store, parkingLotId, gate)
      case Some(e) => Err([e])
      case None => Ok(ParkRequest(vehicleId, parkingLotId, gate))
  }

  /**
   * The view and the serializer accept exactly the same park requests when
   * all three fields are given.
   */
  lemma ViewAndSerializerAcceptAlike(store: ParkingStore, vehicle: int, lot: int, gate: int)
    ensures Views.ParkRejection(store, Some(vehicle), Some(lot), Some(gate)).None?
        <==> ValidatePark(store, vehicle, lot, Some(gate)).Ok?
  {
    assert FieldError(ValidateVehicleId(store, vehicle)) + FieldError(ValidateParkingLotId(store, lot)) == []
       <==> ValidateVehicleId(store, vehicle).Ok? && ValidateParkingLotId(store, lot).Ok?;
  }

  /**
   * They differ when the gate is left out: the view defaults it to 0 and
   * rejects, the serializer defaults it to 1 and accepts.
   */
  lemma DefaultGateDiffers(store: ParkingStore, vehicle: int, lot: int)
    requires ValidatePark(store, vehicle, lot, Some(1)).Ok?
    ensures Views.ParkRejection(store, Some(vehicle), Some(lot), None) == Some(InvalidGate)
    ensures ValidatePark(store, vehicle, lot, None) == Ok(ParkRequest(vehicle, lot, 1))
  {
  }

  /**
   * They also report different errors: the serializer's field check finds a
   * parked vehicle before the cross-field gate check runs, the view checks
   * the gate first.
   */
  lemma ParkedVehicleWithBadGate(store: ParkingStore, vehicle: int, lot: int, gate: int)
    requires IsVehicle(store.vehicleCount, vehicle) && HasOpenTicket(store.tickets, vehicle)
    requires IsLot(store.lots, lot) && !(1 <= gate <= store.lots[lot - 1].totalEntryGate)
    ensures Views.ParkRejection(store, Some(vehicle), Some(lot), Some(gate)) == Some(InvalidGate)
    ensures ValidatePark(store, vehicle, lot, Some(gate)) == Err([VehicleAlreadyParked])
  {
    assert FieldError(ValidateVehicleId(store, vehicle)) == [VehicleAlreadyParked];
    assert FieldError(ValidateParkingLotId(store, lot)) == [];
    assert FieldError(ValidateVehicleId(store, vehicle)) + FieldError(ValidateParkingLotId(store, lot))
        == [VehicleAlreadyParked];
  }

  /**
   * `ParkVehicleSerializer.create`: marks the lot's first available slot
   * unavailable and appends an open ticket on it. The slot is saved before the
   * ticket is inserted and nothing undoes that save: when the insert fails
   * (`ticketCreateFails`), the slot stays unavailable with no ticket on it,
   * and the store is left inconsistent (`Store.OccupiedWithoutTicketBreaksConsistency`).
   */
  method Create(store: ParkingStore, data: ParkRequest, now: Micros, ticketCreateFails: bool)
    returns (r: Result<TicketId, Error>)
    requires store.Valid()
    requires ValidatePark(store, data.vehicleId, data.parkingLotId, Some(data.entryGate)).Ok?
    modifies store
    ensures store.lots == old(store.lots) && store.vehicleCount == old(store.vehicleCount)
    ensures LedgerGrows(old(store.tickets), store.tickets)
    ensures var k := old(FirstFreeSlot(store.slots, data.parkingLotId)).value;
      store.slots == Occupy(old(store.slots), k)
    ensures ticketCreateFails ==>
      && r == Err(TicketCreationFailed)
      && store.tickets == old(store.tickets)
      && !store.Valid()
    ensures !ticketCreateFails ==>
      var k := old(FirstFreeSlot(store.slots, data.parkingLotId)).value;
      && store.Valid()
      && r == Ok(|store.tickets|)
      && store.tickets == old(store.tickets) + [NewTicket(k, data.vehicleId, now, data.entryGate)]
  {
    var availableSlot := FirstFreeSlot(store.slots, data.parkingLotId).value;
    if ticketCreateFails {
      OccupiedWithoutTicketBreaksConsistency(store.lots, store.slots, store.tickets, store.vehicleCount, availableSlot);
      store.slots := Occupy(store.slots, availableSlot);
      return Err(TicketCreationFailed);
    }
    ParkKeepsConsistent(store.lots, store.slots, store.tickets, store.vehicleCount,
                        availableSlot, data.vehicleId, now, data.entryGate);
    store.slots := Occupy(store.slots, availableSlot);
    store.tickets := store.tickets + [NewTicket(availableSlot, data.vehicleId, now, data.entryGate)];
    r := Ok(|store.tickets|);
  }

  /** `RemoveVehicleSerializer.validate_ticket_id` */
  function ValidateTicketId(store: ParkingStore, value: int): (r: Result<TicketId, Error>)
    reads store
    ensures r.Ok? <==> IsTicket(store.tickets, value) && IsOpen(store.tickets[value - 1])
    ensures r.Ok? ==> r.value == value
    ensures !IsTicket(store.tickets, value) ==> r == Err(TicketNotFound)
    ensures IsTicket(store.tickets, value) && !IsOpen(store.tickets[value - 1]) ==> r == Err(AlreadyRemoved)
  {
    if !IsTicket(store.tickets, value) then Err(TicketNotFound)
    else if !IsOpen(store.tickets[value - 1]) then Err(AlreadyRemoved)
    else Ok(value)
  }

  /**
   * `RemoveVehicleSerializer.update`: closes the validated ticket at `now`
   * with the same whole-hour charge as the view and frees its slot.
   */
  method Update(store: ParkingStore, ticketId: TicketId, now: Micros) returns (ticket: Ticket)
    requires store.Valid()
    requires ValidateTicketId(store, ticketId).Ok?
    modifies store
    ensures store.Valid()
    ensures store.lots == old(store.lots) && store.vehicleCount == old(store.vehicleCount)
    ensures LedgerGrows(old(store.tickets), store.tickets)
    ensures var t := old(store.tickets[ticketId - 1]);
      && ticket == Close(t, now, old(RateOf(store.lots, store.slots, t)))
      && store.tickets == old(store.tickets)[ticketId - 1 := ticket]
      && store.slots == Release(old(store.slots), t.parkingSlot)
  {
    ticket := store.tickets[ticketId - 1];
    CloseKeepsConsistent(store.lots, store.slots, store.tickets, store.vehicleCount, ticketId, now);
    var elapsed := now - ticket.entryTime;
    var hoursToCharge := HoursToCharge(elapsed);
    var totalCharge := RateOf(store.lots, store.slots, ticket) * hoursToCharge;
    ticket := ticket.(exitTime := Some(now), totalCharge := totalCharge);
    store.tickets := store.tickets[ticketId - 1 := ticket];
    store.slots := Release(store.slots, ticket.parkingSlot);
  }

  /**
   * `CurrentParkingsQuerySerializer.validate_parking_lot_id`: an absent lot id
   * is accepted, a given one only if that lot exists.
   */
  function ValidateQueryLotId(store: ParkingStore, value: Option<int>): (r: Result<Option<LotId>, Error>)
    reads store
    ensures r.Ok? <==> value.None? || IsLot(store.lots, value.value)
    ensures r.Ok? ==> r.value == value
    ensures r.Err? ==> r.error == LotNotFound
  {
    match value
    case None => Ok(None)
    case Some(id) => if IsLot(store.lots, id) then Ok(value) else Err(LotNotFound)
  }
}
