/** The service's test scenarios, run against a freshly seeded repository. */
module Scenarios {
  import opened GymTypes
  import opened Repositories
  import opened Services

  /** The seeded gym (capacity 100, sensor at 75%) reads 75%; one booking makes
      it 76%; a second booking by the same user is refused; an unknown gym is
      not found. */
  method SeedCapacityScenario(timestamp: string)
    returns (before: Result<CapacityResponse>, booked: Result<Booking>,
             after: Result<CapacityResponse>, again: Result<Booking>,
             unknown: Result<CapacityResponse>)
    ensures before == Ok(CapacityResponse(SeedGymId, 75, 100, 75))
    ensures booked == Ok(Booking("user-1", SeedGymId, timestamp))
    ensures after == Ok(CapacityResponse(SeedGymId, 76, 100, 76))
    ensures again == Err(AlreadyBooked)
    ensures unknown == Err(GymNotFound)
  {
    var repo := new GymRepository();
    var service := new GymService(repo);
    assert service.Valid();
    assert SensorCount(SeedGym) == 75;
    assert RoundHalfUp(7500, 100) == 75 && RoundHalfUp(7600, 100) == 76;
    assert Capacity(SeedGym, 0) == CapacityResponse(SeedGymId, 75, 100, 75);
    assert repo.BookingsOf(SeedGymId) == [];
    before := service.GetCapacity(SeedGymId);
    booked := service.BookSlot("user-1", SeedGymId, timestamp);
    after := service.GetCapacity(SeedGymId);
    again := service.BookSlot("user-1", SeedGymId, timestamp);
    assert repo.BookingsOf(SeedGymId)[0].userId == "user-1";
    unknown := service.GetCapacity("gym-404");
  }

  predicate Distinct(users: seq<string>) {
    forall i, j :: 0 <= i < j < |users| ==> users[i] != users[j]
  }

  /** With 25 slots free at the seeded gym, 25 distinct users all get a booking,
      in order, and the next request is refused for capacity. */
  method FillSeedGym(users: seq<string>, overflowUser: string, timestamp: string)
    returns (outcomes: seq<Result<Booking>>, overflow: Result<Booking>)
    requires |users| == 25 && Distinct(users)
    ensures |outcomes| == 25
    ensures forall i :: 0 <= i < 25 ==> outcomes[i] == Ok(Booking(users[i], SeedGymId, timestamp))
    ensures overflow == Err(AtMaxCapacity)
  {
    var repo := new GymRepository();
    var service := new GymService(repo);
    assert service.Valid();
    assert AvailableSlots(SeedGym) == 25;
    outcomes := [];
    var i := 0;
    while i < 25
      invariant 0 <= i <= 25 && |outcomes| == i
      invariant service.Valid()
      invariant repo.gyms == map[SeedGymId := SeedGym]
      invariant repo.bookings.Keys == {SeedGymId}
      invariant |repo.BookingsOf(SeedGymId)| == i
      invariant forall k :: 0 <= k < i ==> repo.BookingsOf(SeedGymId)[k].userId == users[k]
      invariant forall k :: 0 <= k < i ==> outcomes[k] == Ok(Booking(users[k], SeedGymId, timestamp))
    {
      var r := service.BookSlot(users[i], SeedGymId, timestamp);
      outcomes := outcomes + [r];
      i := i + 1;
    }
    overflow := service.BookSlot(overflowUser, SeedGymId, timestamp);
  }
}
