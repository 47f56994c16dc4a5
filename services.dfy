/**
 * parking/services.py: lot provisioning, and vehicle/services.py's vehicle
 * registration, which the parking core only needs for vehicle ids.
 */
module Services {
  import opened ParkingModels
  import opened Store
  import opened Signals

  /**
   * `create_parking_lot`: inserts the lot, whose post-save handler then adds
   * its slots. Nothing is validated: a non-positive capacity yields a lot
   * without slots, and a negative rate or gate count is stored as given.
   */
  method CreateParkingLot(store: ParkingStore, name: string, capacity: int, chargePerHour: Cents, totalEntryGate: int)
    returns (lot: LotId)
    requires store.Valid()
    modifies store
    ensures store.Valid()
    ensures lot == |store.lots|
    ensures store.lots == old(store.lots) + [ParkingLot(name, capacity, chargePerHour, totalEntryGate)]
    ensures store.slots == old(store.slots) + NewSlots(lot, capacity)
    ensures SlotsOf(store.slots, lot) == NewSlots(lot, capacity)
    ensures forall other | other != lot :: SlotsOf(store.slots, other) == SlotsOf(old(store.slots), other)
    ensures store.tickets == old(store.tickets) && store.vehicleCount == old(store.vehicleCount)
  {
    store.lots := store.lots + [ParkingLot(name, capacity, chargePerHour, totalEntryGate)];
    lot := |store.lots|;
    PostParkingLotCreate(store, lot);
    forall other | other != lot
      ensures SlotsOf(store.slots, other) == SlotsOf(old(store.slots), other)
    {
      SavedLotSlots(old(store.slots), lot, capacity, other);
    }
    SavedLotSlots(old(store.slots), lot, capacity, lot);
    SlotsOfAbsent(old(store.slots), lot);
  }

  /** `register_vehicle`: the new vehicle gets the next id. */
  method RegisterVehicle(store: ParkingStore) returns (vehicle: VehicleId)
    requires store.Valid()
    modifies store
    ensures store.Valid()
    ensures vehicle == store.vehicleCount == old(store.vehicleCount) + 1
    ensures !HasOpenTicket(store.tickets, vehicle)
    ensures store.lots == old(store.lots) && store.slots == old(store.slots) && store.tickets == old(store.tickets)
  {
    store.vehicleCount := store.vehicleCount + 1;
    vehicle := store.vehicleCount;
  }
}
