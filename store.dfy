/**
 * The in-memory store standing in for the three tables of parking/models.py
 * (lots, slots, tickets) and the vehicle table of the vehicle app, which is
 * referenced by id only. The queries the endpoints run against it are pure
 * functions of the tables; the invariant the engine maintains is `Consistent`.
 */
module Store {
  import opened Wrappers
  import opened ParkingModels
  import opened Billing

  predicate IsLot(lots: seq<ParkingLot>, id: LotId) { 1 <= id <= |lots| }
  predicate IsSlot(slots: seq<ParkingSlot>, id: SlotId) { 1 <= id <= |slots| }
  predicate IsTicket(tickets: seq<Ticket>, id: TicketId) { 1 <= id <= |tickets| }
  predicate IsVehicle(vehicleCount: nat, id: VehicleId) { 1 <= id <= vehicleCount }

  /** A slot that belongs to `lot` and is available. */
  predicate Free(s: ParkingSlot, lot: LotId) {
    s.parkingLot == lot && s.isAvailable
  }

  /**
   * `ParkingSlot.objects.filter(parking_lot=lot, is_available=True).first()`:
   * the free slot of the lot with the smallest primary key, if any.
   */
  function FirstFreeSlot(slots: seq<ParkingSlot>, lot: LotId): (r: Option<SlotId>)
    ensures r.Some? ==> IsSlot(slots, r.value) && Free(slots[r.value - 1], lot)
    ensures r.Some? ==> forall i | 0 <= i < r.value - 1 :: !Free(slots[i], lot)
    ensures r.None? <==> forall i | 0 <= i < |slots| :: !Free(slots[i], lot)
  {
    FirstFreeFrom(slots, lot, 0)
  }

  /** The first free slot of `lot` at index `from` or later. */
  function FirstFreeFrom(slots: seq<ParkingSlot>, lot: LotId, from: nat): (r: Option<SlotId>)
    requires from <= |slots|
    ensures r.Some? ==> from < r.value <= |slots| && Free(slots[r.value - 1], lot)
    ensures r.Some? ==> forall i | from <= i < r.value - 1 :: !Free(slots[i], lot)
    ensures r.None? <==> forall i | from <= i < |slots| :: !Free(slots[i], lot)
    decreases |slots| - from
  {
    if from == |slots| then None
    else if Free(slots[from], lot) then Some(from + 1)
    else FirstFreeFrom(slots, lot, from + 1)
  }

  /** `Ticket.objects.filter(vehicle=vehicle, exit_time__isnull=True)` is non-empty. */
  predicate HasOpenTicket(tickets: seq<Ticket>, vehicle: VehicleId) {
    exists j | 0 <= j < |tickets| :: IsOpen(tickets[j]) && tickets[j].vehicle == vehicle
  }

  /** Some open ticket references slot `slot`. */
  ghost predicate Occupied(tickets: seq<Ticket>, slot: SlotId) {
    exists j | 0 <= j < |tickets| :: IsOpen(tickets[j]) && tickets[j].parkingSlot == slot
  }

  /** Every foreign key points at an existing row. */
  ghost predicate WellFormed(lots: seq<ParkingLot>, slots: seq<ParkingSlot>, tickets: seq<Ticket>, vehicleCount: nat) {
    && (forall i | 0 <= i < |slots| :: IsLot(lots, slots[i].parkingLot))
    && (forall j | 0 <= j < |tickets| :: IsSlot(slots, tickets[j].parkingSlot))
    && (forall j | 0 <= j < |tickets| :: IsVehicle(vehicleCount, tickets[j].vehicle))
  }

  /** No two open tickets share a slot. */
  ghost predicate SlotsExclusive(tickets: seq<Ticket>) {
    forall j, k | 0 <= j < k < |tickets| && IsOpen(tickets[j]) && IsOpen(tickets[k]) ::
      tickets[j].parkingSlot != tickets[k].parkingSlot
  }

  /** No vehicle holds two open tickets. */
  ghost predicate OneOpenTicketPerVehicle(tickets: seq<Ticket>) {
    forall j, k | 0 <= j < k < |tickets| && IsOpen(tickets[j]) && IsOpen(tickets[k]) ::
      tickets[j].vehicle != tickets[k].vehicle
  }

  /** A slot is unavailable exactly when an open ticket references it. */
  ghost predicate AvailabilityMatchesTickets(slots: seq<ParkingSlot>, tickets: seq<Ticket>) {
    forall i | 0 <= i < |slots| :: !slots[i].isAvailable <==> Occupied(tickets, i + 1)
  }

  /** The invariant every operation of the engine preserves. */
  ghost predicate Consistent(lots: seq<ParkingLot>, slots: seq<ParkingSlot>, tickets: seq<Ticket>, vehicleCount: nat) {
    && WellFormed(lots, slots, tickets, vehicleCount)
    && AvailabilityMatchesTickets(slots, tickets)
    && SlotsExclusive(tickets)
    && OneOpenTicketPerVehicle(tickets)
  }

  /** Slot `k` with `is_available` set to false. */
  function Occupy(slots: seq<ParkingSlot>, k: SlotId): seq<ParkingSlot>
    requires IsSlot(slots, k)
  {
    slots[k - 1 := slots[k - 1].(isAvailable := false)]
  }

  /** Slot `k` with `is_available` set to true. */
  function Release(slots: seq<ParkingSlot>, k: SlotId): seq<ParkingSlot>
    requires IsSlot(slots, k)
  {
    slots[k - 1 := slots[k - 1].(isAvailable := true)]
  }

  /** `ticket.parking_slot.parking_lot.charge_per_hour` */
  function RateOf(lots: seq<ParkingLot>, slots: seq<ParkingSlot>, t: Ticket): Cents
    requires IsSlot(slots, t.parkingSlot) && IsLot(lots, slots[t.parkingSlot - 1].parkingLot)
  {
    lots[slots[t.parkingSlot - 1].parkingLot - 1].chargePerHour
  }

  /** A ticket closed at `now`: exit time set and the stay billed at `rate`. */
  function Close(t: Ticket, now: Micros, rate: Cents): Ticket {
    t.(exitTime := Some(now), totalCharge := TotalCharge(rate, now - t.entryTime))
  }

  /**
   * What no operation may do to an existing ticket: change its slot, vehicle,
   * entry time or gate, or touch it at all once it is closed. New tickets may
   * only be appended.
   */
  ghost predicate LedgerGrows(before: seq<Ticket>, after: seq<Ticket>) {
    && |before| <= |after|
    && forall j | 0 <= j < |before| ::
         && after[j].parkingSlot == before[j].parkingSlot
         && after[j].vehicle == before[j].vehicle
         && after[j].entryTime == before[j].entryTime
         && after[j].entryGate == before[j].entryGate
         && (!IsOpen(before[j]) ==> after[j] == before[j])
  }

  /** The ledger guarantee composes across any sequence of operations. */
  lemma LedgerGrowsTransitive(a: seq<Ticket>, b: seq<Ticket>, c: seq<Ticket>)
    requires LedgerGrows(a, b) && LedgerGrows(b, c)
    ensures LedgerGrows(a, c)
  {
  }

  /**
   * Claiming an available slot without appending a ticket for it breaks the
   * invariant: the slot is unavailable, yet no open ticket references it.
   */
  lemma OccupiedWithoutTicketBreaksConsistency(
    lots: seq<ParkingLot>, slots: seq<ParkingSlot>, tickets: seq<Ticket>, vehicleCount: nat, k: SlotId)
    requires Consistent(lots, slots, tickets, vehicleCount)
    requires IsSlot(slots, k) && slots[k - 1].isAvailable
    ensures !Consistent(lots, Occupy(slots, k), tickets, vehicleCount)
  {
    assert !Occupied(tickets, (k - 1) + 1);
    assert !Occupy(slots, k)[k - 1].isAvailable;
    assert !AvailabilityMatchesTickets(Occupy(slots, k), tickets);
  }

  /**
   * Claiming an available slot for a vehicle without an open ticket and
   * appending its new ticket keeps the store consistent.
   */
  lemma ParkKeepsConsistent(
    lots: seq<ParkingLot>, slots: seq<ParkingSlot>, tickets: seq<Ticket>, vehicleCount: nat,
    k: SlotId, vehicle: VehicleId, now: Micros, gate: int)
    requires Consistent(lots, slots, tickets, vehicleCount)
    requires IsSlot(slots, k) && slots[k - 1].isAvailable
    requires IsVehicle(vehicleCount, vehicle) && !HasOpenTicket(tickets, vehicle)
    ensures Consistent(lots, Occupy(slots, k), tickets + [NewTicket(k, vehicle, now, gate)], vehicleCount)
    ensures LedgerGrows(tickets, tickets + [NewTicket(k, vehicle, now, gate)])
  {
    var tickets' := tickets + [NewTicket(k, vehicle, now, gate)];
    assert forall j | 0 <= j < |tickets| :: tickets'[j] == tickets[j];
    assert IsOpen(tickets'[|tickets|]) && tickets'[|tickets|].parkingSlot == k;
  }

  /**
   * Closing an open ticket and releasing its slot keeps the store consistent:
   * the closed ticket was the only open one on that slot.
   */
  lemma CloseKeepsConsistent(
    lots: seq<ParkingLot>, slots: seq<ParkingSlot>, tickets: seq<Ticket>, vehicleCount: nat,
    id: TicketId, now: Micros)
    requires Consistent(lots, slots, tickets, vehicleCount)
    requires IsTicket(tickets, id) && IsOpen(tickets[id - 1])
    ensures var t := tickets[id - 1];
      && Consistent(lots, Release(slots, t.parkingSlot),
                    tickets[id - 1 := Close(t, now, RateOf(lots, slots, t))], vehicleCount)
      && LedgerGrows(tickets, tickets[id - 1 := Close(t, now, RateOf(lots, slots, t))])
  {
    var t := tickets[id - 1];
    var tickets' := tickets[id - 1 := Close(t, now, RateOf(lots, slots, t))];
    forall s | IsSlot(slots, s)
      ensures Occupied(tickets', s) <==> Occupied(tickets, s) && s != t.parkingSlot
    {
      if Occupied(tickets', s) {
        var j :| 0 <= j < |tickets'| && IsOpen(tickets'[j]) && tickets'[j].parkingSlot == s;
        assert tickets[j] == tickets'[j];
      }
      if Occupied(tickets, s) && s != t.parkingSlot {
        var j :| 0 <= j < |tickets| && IsOpen(tickets[j]) && tickets[j].parkingSlot == s;
        assert tickets[j] == tickets'[j];
      }
    }
  }

  /** Appending available slots of existing lots keeps the store consistent. */
  lemma AddSlotsKeepsConsistent(
    lots: seq<ParkingLot>, slots: seq<ParkingSlot>, tickets: seq<Ticket>, vehicleCount: nat,
    extra: seq<ParkingSlot>)
    requires Consistent(lots, slots, tickets, vehicleCount)
    requires forall i | 0 <= i < |extra| :: IsLot(lots, extra[i].parkingLot) && extra[i].isAvailable
    ensures Consistent(lots, slots + extra, tickets, vehicleCount)
  {
  }

  /** The number of open tickets that reference slot `slot`. */
  function CountOpenOn(tickets: seq<Ticket>, slot: SlotId): nat {
    if tickets == [] then 0
    else
      var last := tickets[|tickets| - 1];
      CountOpenOn(tickets[..|tickets| - 1], slot) + (if IsOpen(last) && last.parkingSlot == slot then 1 else 0)
  }

  /** The number of open tickets held by `vehicle`. */
  function CountOpenFor(tickets: seq<Ticket>, vehicle: VehicleId): nat {
    if tickets == [] then 0
    else
      var last := tickets[|tickets| - 1];
      CountOpenFor(tickets[..|tickets| - 1], vehicle) + (if IsOpen(last) && last.vehicle == vehicle then 1 else 0)
  }

  lemma {:induction false} CountOpenOnExclusive(tickets: seq<Ticket>, slot: SlotId)
    requires SlotsExclusive(tickets)
    ensures CountOpenOn(tickets, slot) == if Occupied(tickets, slot) then 1 else 0
  {
    if tickets != [] {
      var n := |tickets| - 1;
      var prefix := tickets[..n];
      assert SlotsExclusive(prefix) by {
        forall j, k | 0 <= j < k < |prefix| && IsOpen(prefix[j]) && IsOpen(prefix[k])
          ensures prefix[j].parkingSlot != prefix[k].parkingSlot
        {
          assert prefix[j] == tickets[j] && prefix[k] == tickets[k];
        }
      }
      CountOpenOnExclusive(prefix, slot);
      assert forall j | 0 <= j < n :: prefix[j] == tickets[j];
    }
  }

  lemma {:induction false} CountOpenForAtMostOne(tickets: seq<Ticket>, vehicle: VehicleId)
    requires OneOpenTicketPerVehicle(tickets)
    ensures CountOpenFor(tickets, vehicle) == if HasOpenTicket(tickets, vehicle) then 1 else 0
  {
    if tickets != [] {
      var n := |tickets| - 1;
      var prefix := tickets[..n];
      assert OneOpenTicketPerVehicle(prefix) by {
        forall j, k | 0 <= j < k < |prefix| && IsOpen(prefix[j]) && IsOpen(prefix[k])
          ensures prefix[j].vehicle != prefix[k].vehicle
        {
          assert prefix[j] == tickets[j] && prefix[k] == tickets[k];
        }
      }
      CountOpenForAtMostOne(prefix, vehicle);
      assert forall j | 0 <= j < n :: prefix[j] == tickets[j];
    }
  }

  /**
   * In a consistent store an unavailable slot is referenced by exactly one
   * open ticket and an available slot by none, and every vehicle holds at
   * most one open ticket.
   */
  lemma ConsistentCounts(
    lots: seq<ParkingLot>, slots: seq<ParkingSlot>, tickets: seq<Ticket>, vehicleCount: nat,
    k: SlotId, vehicle: VehicleId)
    requires Consistent(lots, slots, tickets, vehicleCount)
    requires IsSlot(slots, k)
    ensures CountOpenOn(tickets, k) == if slots[k - 1].isAvailable then 0 else 1
    ensures CountOpenFor(tickets, vehicle) <= 1
  {
    CountOpenOnExclusive(tickets, k);
    CountOpenForAtMostOne(tickets, vehicle);
  }

  /**
   * The database: the lot, slot and ticket tables and the number of
   * registered vehicles (vehicle ids are 1..vehicleCount).
   */
  class ParkingStore {
    var lots: seq<ParkingLot>
    var slots: seq<ParkingSlot>
    var tickets: seq<Ticket>
    var vehicleCount: nat

    ghost predicate Valid()
      reads this
    {
      Consistent(lots, slots, tickets, vehicleCount)
    }

    /** An empty database. */
    constructor ()
      ensures Valid()
      ensures lots == [] && slots == [] && tickets == [] && vehicleCount == 0
    {
      lots, slots, tickets, vehicleCount := [], [], [], 0;
    }
  }
}
