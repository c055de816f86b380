/** The in-memory store of gyms and of the bookings filed under each gym. */
module Repositories {
  import opened GymTypes

  const SeedGymId: string := "gym-123"
  const SeedGym: Gym := Gym(SeedGymId, 100, 75)

  class GymRepository {
    var gyms: map<string, Gym>
    var bookings: map<string, seq<Booking>>

    /** Every gym is filed under its own id and is well formed; every booking
        is filed under the gym it names. */
    ghost predicate Valid()
      reads this
    {
      && (forall id :: id in gyms ==> gyms[id].id == id && WellFormed(gyms[id]))
      && (forall id, i :: id in bookings && 0 <= i < |bookings[id]| ==> bookings[id][i].gymId == id)
    }

    /** The booking list of a gym, empty when the gym has no entry. */
    function BookingsOf(gymId: string): seq<Booking>
      reads this
    {
      if gymId in bookings then bookings[gymId] else []
    }

    /** Seeds one gym with an empty booking list. */
    constructor ()
      ensures Valid()
      ensures gyms == map[SeedGymId := SeedGym]
      ensures bookings == map[SeedGymId := []]
    {
      gyms := map[SeedGymId := SeedGym];
      bookings := map[SeedGymId := []];
    }

    method GetGymById(id: string) returns (r: Option<Gym>)
      ensures r.None? <==> id !in gyms
      ensures r.Some? ==> r.value == gyms[id]
      ensures Valid() && r.Some? ==> r.value.id == id && WellFormed(r.value)
    {
      if id in gyms {
        r := Some(gyms[id]);
      } else {
        r := None;
      }
    }

    method GetBookingsByGymId(gymId: string) returns (r: seq<Booking>)
      ensures gymId !in bookings ==> r == []
      ensures gymId in bookings ==> r == bookings[gymId]
      ensures Valid() ==> forall i :: 0 <= i < |r| ==> r[i].gymId == gymId
    {
      if gymId in bookings {
        r := bookings[gymId];
      } else {
        r := [];
      }
    }

    /** Appends without any check: capacity and uniqueness are the service's business. */
    method AddBooking(booking: Booking)
      modifies this
      ensures gyms == old(gyms)
      ensures bookings == old(bookings)[booking.gymId := old(BookingsOf(booking.gymId)) + [booking]]
      ensures BookingsOf(booking.gymId) == old(BookingsOf(booking.gymId)) + [booking]
      ensures forall id :: id != booking.gymId ==> BookingsOf(id) == old(BookingsOf(id))
      ensures old(Valid()) ==> Valid()
    {
      var current := if booking.gymId in bookings then bookings[booking.gymId] else [];
      bookings := bookings[booking.gymId := current + [booking]];
    }
  }
}
