/**
 * The record shapes of parking/models.py.
 *
 * Primary keys are positive integers handed out in insertion order, as the
 * database does; the store keeps each table as a sequence, so the row with
 * id `k` sits at index `k - 1`. Timestamps are integer microseconds and money
 * is integer cents, so that billing is exact.
 */
module ParkingModels {
  import opened Wrappers

  type LotId = int
  type SlotId = int
  type TicketId = int
  type VehicleId = int

  /** A point in time, or a duration, in microseconds. */
  type Micros = int

  /** An amount of money in hundredths of the currency unit (two decimal places). */
  type Cents = int


  /**
   * A parking lot. `totalEntryGate` is the number of entry gates: the views and
   * serializers read `parking_lot.total_entry_gate`, a column the model class
   * does not declare, so it is added here.
   */
  datatype ParkingLot = ParkingLot(name: string, capacity: int, chargePerHour: Cents, totalEntryGate: int)

  /** One numbered space of a lot. */
  datatype ParkingSlot = ParkingSlot(parkingLot: LotId, slotNumber: int, isAvailable: bool)

  /**
   * One parking session. `exitTime` is None while the vehicle is parked; the
   * ticket's `entryGate` is the column the views write although the model
   * class does not declare it.
   */
  datatype Ticket = Ticket(
    parkingSlot: SlotId,
    vehicle: VehicleId,
    entryTime: Micros,
    exitTime: Option<Micros>,
    totalCharge: Cents,
    entryGate: int)

  /** A ticket is open (the vehicle is still parked) while its exit time is null. */
  predicate IsOpen(t: Ticket) {
    t.exitTime.None?
  }

  /** A slot as created: `is_available` defaults to true. */
  function NewSlot(lot: LotId, number: int): ParkingSlot {
    ParkingSlot(lot, number, true)
  }

  /** A ticket as created: entry time is the creation time, exit time null, charge 0. */
  function NewTicket(slot: SlotId, vehicle: VehicleId, now: Micros, gate: int): Ticket {
    Ticket(slot, vehicle, now, None, 0, gate)
  }

  /** The rejections the parking endpoints and serializers can answer with. */
  datatype Error =
    | MissingField          // a required id is absent (or 0) in the request body
    | VehicleNotFound
    | LotNotFound
    | TicketNotFound
    | InvalidGate           // entry gate outside 1..total_entry_gate
    | VehicleAlreadyParked  // the vehicle already holds an open ticket
    | NoAvailableSlots
    | TicketCreationFailed  // the ticket insert failed
    | AlreadyRemoved        // the ticket already has an exit time
}
