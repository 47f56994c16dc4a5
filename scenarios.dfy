/**
 * Clients of the model: a one-slot lot at 20.00 per hour with one gate.
 * The first vehicle parks in slot 0, the second finds the lot full, and
 * removing the first after 2h10m bills three hours, 60.00, and frees the slot.
 */
module Scenarios {
  import opened Wrappers
  import opened ParkingModels
  import opened Billing
  import opened Store
  import Services
  import Views
  import Signals

  /** A fresh store with two vehicles and one lot of one slot, 20.00 per hour, one gate. */
  method SingleSlotStore() returns (store: ParkingStore, v1: VehicleId, v2: VehicleId, lot: LotId)
    ensures store.Valid() && fresh(store)
    ensures v1 == 1 && v2 == 2 && lot == 1 && store.vehicleCount == 2
    ensures store.lots == [ParkingLot("lot0", 1, 2000, 1)]
    ensures store.slots == [ParkingSlot(1, 0, true)] && store.tickets == []
  {
    store := new ParkingStore();
    v1 := Services.RegisterVehicle(store);
    v2 := Services.RegisterVehicle(store);
    assert store.lots == [] && store.slots == [] && store.tickets == [];
    lot := Services.CreateParkingLot(store, "lot0", 1, 2000, 1);
    assert Signals.NewSlots(1, 1) == [ParkingSlot(1, 0, true)];
  }

  method FirstParksSecondFindsLotFull(t0: Micros) {
    var store, v1, v2, lot := SingleSlotStore();
    var noGate := Views.ParkVehicle(store, Some(v1), Some(lot), None, t0, false);
    assert noGate == Err(InvalidGate);

    var first := Views.ParkVehicle(store, Some(v1), Some(lot), Some(1), t0, false);
    assert first == Ok(1);
    assert store.slots == [ParkingSlot(1, 0, false)];

    var second := Views.ParkVehicle(store, Some(v2), Some(lot), Some(1), t0, false);
    assert second == Err(NoAvailableSlots);
  }

  method RemoveAfterTwoHoursTenMinutes(t0: Micros) {
    var store, v1, v2, lot := SingleSlotStore();
    var first := Views.ParkVehicle(store, Some(v1), Some(lot), Some(1), t0, false);
    assert first == Ok(1);

    var exit := t0 + 2 * MicrosPerHour + 10 * MicrosPerMinute;
    ChargeExamples(2000);
    var removed := Views.RemoveVehicle(store, Some(1), exit);
    assert removed.Ok? && removed.value.totalCharge == 6000 && removed.value.exitTime == Some(exit);
    assert store.slots == [ParkingSlot(1, 0, true)];

    var twice := Views.RemoveVehicle(store, Some(1), exit);
    assert twice == Err(AlreadyRemoved);
  }
}
