/**
 * parking/signals.py: after every save of a lot, the post-save handler adds
 * `capacity` slots numbered 0..capacity-1 to it. The handler ignores whether
 * the save created the lot, so saving an existing lot again appends another
 * full set of slots with the same numbers.
 */
module Signals {
  import opened ParkingModels
  import opened Store

  /** The slots the handler adds for `lot`: numbers 0..capacity-1, all available. */
  function NewSlots(lot: LotId, capacity: int): (r: seq<ParkingSlot>)
    ensures |r| == if capacity > 0 then capacity else 0
    ensures forall i | 0 <= i < |r| :: r[i] == ParkingSlot(lot, i, true)
    decreases capacity
  {
    if capacity <= 0 then [] else NewSlots(lot, capacity - 1) + [NewSlot(lot, capacity - 1)]
  }

  /** The slots of `lot`, in primary-key order (`lot.parkingslot_set`). */
  function SlotsOf(slots: seq<ParkingSlot>, lot: LotId): seq<ParkingSlot> {
    if slots == [] then []
    else
      var last := slots[|slots| - 1];
      SlotsOf(slots[..|slots| - 1], lot) + (if last.parkingLot == lot then [last] else [])
  }

  lemma {:induction false} SlotsOfAppend(a: seq<ParkingSlot>, b: seq<ParkingSlot>, lot: LotId)
    ensures SlotsOf(a + b, lot) == SlotsOf(a, lot) + SlotsOf(b, lot)
    decreases |b|
  {
    if b == [] {
      assert a + b == a;
    } else {
      var n := |b| - 1;
      assert (a + b)[..|a + b| - 1] == a + b[..n];
      SlotsOfAppend(a, b[..n], lot);
    }
  }

  lemma {:induction false} SlotsOfNewSlots(lot: LotId, other: LotId, capacity: int)
    ensures SlotsOf(NewSlots(lot, capacity), other) == if other == lot then NewSlots(lot, capacity) else []
    decreases capacity
  {
    if capacity > 0 {
      var r := NewSlots(lot, capacity);
      assert r[..|r| - 1] == NewSlots(lot, capacity - 1);
      SlotsOfNewSlots(lot, other, capacity - 1);
    }
  }

  lemma {:induction false} SlotsOfAbsent(slots: seq<ParkingSlot>, lot: LotId)
    requires forall i | 0 <= i < |slots| :: slots[i].parkingLot != lot
    ensures SlotsOf(slots, lot) == []
  {
    if slots != [] {
      SlotsOfAbsent(slots[..|slots| - 1], lot);
    }
  }

  /**
   * After the handler runs for `lot`, the lot's slots are the ones it had,
   * followed by a fresh 0..capacity-1 run; every other lot's slots are as
   * they were.
   */
  lemma SavedLotSlots(slots: seq<ParkingSlot>, lot: LotId, capacity: int, other: LotId)
    ensures SlotsOf(slots + NewSlots(lot, capacity), lot) == SlotsOf(slots, lot) + NewSlots(lot, capacity)
    ensures other != lot ==> SlotsOf(slots + NewSlots(lot, capacity), other) == SlotsOf(slots, other)
  {
    SlotsOfAppend(slots, NewSlots(lot, capacity), lot);
    SlotsOfNewSlots(lot, lot, capacity);
    SlotsOfAppend(slots, NewSlots(lot, capacity), other);
    SlotsOfNewSlots(lot, other, capacity);
  }

  /** Saving the same lot twice leaves it with every slot number twice. */
  lemma ResaveDuplicatesNumbers(lot: LotId, capacity: int, n: int)
    requires 0 <= n < capacity
    ensures var s := SlotsOf(NewSlots(lot, capacity) + NewSlots(lot, capacity), lot);
      |s| == 2 * capacity && s[n].slotNumber == n && s[capacity + n].slotNumber == n
  {
    SavedLotSlots(NewSlots(lot, capacity), lot, capacity, lot);
    SlotsOfNewSlots(lot, lot, capacity);
  }

  /** `post_parking_lot_create`: the handler run after `lot` is saved. */
  method PostParkingLotCreate(store: ParkingStore, lot: LotId)
    requires store.Valid() && IsLot(store.lots, lot)
    modifies store
    ensures store.Valid()
    ensures store.lots == old(store.lots) && store.tickets == old(store.tickets)
    ensures store.slots == old(store.slots) + NewSlots(lot, store.lots[lot - 1].capacity)
    ensures store.vehicleCount == old(store.vehicleCount)
  {
    var capacity := store.lots[lot - 1].capacity;
    var i := 0;
    while i < capacity
      invariant 0 <= i <= if capacity > 0 then capacity else 0
      invariant store.slots == old(store.slots) + NewSlots(lot, i)
      invariant store.lots == old(store.lots) && store.tickets == old(store.tickets)
      invariant store.vehicleCount == old(store.vehicleCount)
      invariant store.Valid()
    {
      AddSlotsKeepsConsistent(store.lots, store.slots, store.tickets, store.vehicleCount, [NewSlot(lot, i)]);
      store.slots := store.slots + [NewSlot(lot, i)];
      i := i + 1;
    }
  }
}
