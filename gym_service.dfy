/** Admission control: the capacity reading and the book-or-reject decision. */
module Services {
  import opened GymTypes
  import opened Repositories

  function Min(a: int, b: int): int {
    if a <= b then a else b
  }

  /** Occupancy estimated by the sensor: floor(currentFullness / 100 * maxCapacity),
      computed exactly. */
  function SensorCount(g: Gym): (r: int)
    ensures 100 * r <= g.currentFullness * g.maxCapacity < 100 * (r + 1)
  {
    g.currentFullness * g.maxCapacity / 100
  }

  /** Slots left for reservations once the sensor estimate is taken off. */
  function AvailableSlots(g: Gym): int {
    g.maxCapacity - SensorCount(g)
  }

  /** For a well-formed gym the sensor estimate lies within the capacity, so
      the available slots are between zero and the capacity. */
  lemma AvailableSlotsBounds(g: Gym)
    requires WellFormed(g)
    ensures 0 <= SensorCount(g) <= g.maxCapacity
    ensures 0 <= AvailableSlots(g) <= g.maxCapacity
  {
    var f, m := g.currentFullness, g.maxCapacity;
    assert 0 <= f * m <= 100 * m by {
      assert f * m <= 100 * m by { MulLeq(f, 100, m); }
    }
  }

  lemma MulLeq(a: int, b: int, c: nat)
    requires a <= b
    ensures a * c <= b * c
  {
    assert b * c - a * c == (b - a) * c;
  }

  /** Math.round(n / d) for a positive divisor: the nearest integer, halves rounded up. */
  function RoundHalfUp(n: int, d: int): (r: int)
    requires d > 0
    ensures d * (2 * r - 1) <= 2 * n < d * (2 * r + 1)
  {
    var q := (2 * n + d) / (2 * d);
    assert 2 * d * q <= 2 * n + d < 2 * d * q + 2 * d;
    q
  }

  /** getCapacity on a found gym holding `bookingCount` bookings. */
  function Capacity(g: Gym, bookingCount: nat): (r: CapacityResponse)
    requires g.maxCapacity > 0
    ensures r.gymId == g.id && r.maxCapacity == g.maxCapacity
    ensures r.currentCount <= g.maxCapacity
    ensures r.capacityPercentage <= 100
    ensures 0 <= g.currentFullness ==> 0 <= r.currentCount && 0 <= r.capacityPercentage
  {
    var count := SensorCount(g) + bookingCount;
    CapacityResponse(g.id, Min(100, RoundHalfUp(100 * count, g.maxCapacity)), g.maxCapacity, Min(g.maxCapacity, count))
  }

  /** The reported percentage is the blended count (sensor plus bookings, before
      clamping) as a share of the capacity, rounded to the nearest integer with
      halves up, and capped at 100. */
  lemma CapacityPercentageRounds(g: Gym, bookingCount: nat)
    requires g.maxCapacity > 0
    ensures var c, m, p := SensorCount(g) + bookingCount, g.maxCapacity, Capacity(g, bookingCount).capacityPercentage;
      && (p < 100 ==> m * (2 * p - 1) <= 200 * c < m * (2 * p + 1))
      && (p == 100 ==> 199 * m <= 200 * c)
  {
    var c, m := SensorCount(g) + bookingCount, g.maxCapacity;
    var q := RoundHalfUp(100 * c, m);
    if q >= 100 {
      MulLeq(199, 2 * q - 1, m);
    }
  }

  /** When the count is clamped to the capacity, the gym reads as 100% full. */
  lemma ClampedCountReadsFull(g: Gym, bookingCount: nat)
    requires g.maxCapacity > 0
    requires Capacity(g, bookingCount).currentCount == g.maxCapacity
    ensures Capacity(g, bookingCount).capacityPercentage == 100
  {
    var c, m := SensorCount(g) + bookingCount, g.maxCapacity;
    assert m <= c;
    var q := RoundHalfUp(100 * c, m);
    if q < 100 {
      MulLeq(2 * q + 1, 199, m);
      MulLeq(m, c, 200);
      assert false;
    }
  }

  /** More bookings never lower the reported count or percentage. */
  lemma CapacityMonotone(g: Gym, n1: nat, n2: nat)
    requires g.maxCapacity > 0
    requires n1 <= n2
    ensures Capacity(g, n1).currentCount <= Capacity(g, n2).currentCount
    ensures Capacity(g, n1).capacityPercentage <= Capacity(g, n2).capacityPercentage
  {
    var s := SensorCount(g);
    RoundMonotone(100 * (s + n1), 100 * (s + n2), g.maxCapacity);
  }

  lemma RoundMonotone(n1: int, n2: int, d: int)
    requires d > 0 && n1 <= n2
    ensures RoundHalfUp(n1, d) <= RoundHalfUp(n2, d)
  {
    var q1, q2 := RoundHalfUp(n1, d), RoundHalfUp(n2, d);
    // d * (2 * q1 - 1) <= 2 * n1 <= 2 * n2 < d * (2 * q2 + 1)
    MulCancel(2 * q1 - 1, 2 * q2 + 1, d);
  }

  lemma MulCancel(x: int, y: int, d: int)
    requires d > 0 && d * x < d * y
    ensures x < y
  {
    assert d * (y - x) == d * y - d * x;
  }

  /** Array.prototype.find on userId: the first booking of the user, if any. */
  function FindByUser(bs: seq<Booking>, userId: string): (r: Option<Booking>)
    ensures r.Some? <==> exists i :: 0 <= i < |bs| && bs[i].userId == userId
    ensures r.Some? ==> exists i :: 0 <= i < |bs| && bs[i] == r.value && r.value.userId == userId
                                    && forall j :: 0 <= j < i ==> bs[j].userId != userId
  {
    if bs == [] then None
    else if bs[0].userId == userId then Some(bs[0])
    else
      var r := FindByUser(bs[1..], userId);
      assert forall i :: 0 < i < |bs| ==> bs[i] == bs[1..][i - 1];
      if r.Some? then
        var k :| 0 <= k < |bs[1..]| && bs[1..][k] == r.value && r.value.userId == userId
                 && forall j :: 0 <= j < k ==> bs[1..][j].userId != userId;
        assert bs[k + 1] == r.value;
        r
      else r
  }

  /** bookSlot as a decision on the gyms and the gym's current booking list. */
  function Decide(gyms: map<string, Gym>, bs: seq<Booking>, userId: string, gymId: string, timestamp: string): (r: Result<Booking>)
    ensures r == Err(GymNotFound) <==> gymId !in gyms
    ensures r == Err(AtMaxCapacity) <==> gymId in gyms && |bs| >= AvailableSlots(gyms[gymId])
    ensures r == Err(AlreadyBooked) <==>
              gymId in gyms && |bs| < AvailableSlots(gyms[gymId])
              && exists i :: 0 <= i < |bs| && bs[i].userId == userId
    ensures r.Ok? <==>
              gymId in gyms && |bs| < AvailableSlots(gyms[gymId])
              && forall i :: 0 <= i < |bs| ==> bs[i].userId != userId
    ensures r.Ok? ==> r.value == Booking(userId, gymId, timestamp)
  {
    if gymId !in gyms then Err(GymNotFound)
    else if |bs| >= AvailableSlots(gyms[gymId]) then Err(AtMaxCapacity)
    else if FindByUser(bs, userId).Some? then Err(AlreadyBooked)
    else Ok(Booking(userId, gymId, timestamp))
  }

  predicate UniqueUsers(bs: seq<Booking>) {
    forall i, j :: 0 <= i < j < |bs| ==> bs[i].userId != bs[j].userId
  }

  /** What the service keeps true of a gym's booking list: no more bookings
      than available slots, one booking per user, all for that gym. */
  predicate Admitted(g: Gym, bs: seq<Booking>) {
    && |bs| <= AvailableSlots(g)
    && UniqueUsers(bs)
    && forall i :: 0 <= i < |bs| ==> bs[i].gymId == g.id
  }

  /** A successful decision keeps the booking list admitted once its booking is appended. */
  lemma DecidePreservesAdmitted(gyms: map<string, Gym>, bs: seq<Booking>, userId: string, gymId: string, timestamp: string)
    requires gymId in gyms && gyms[gymId].id == gymId
    requires Admitted(gyms[gymId], bs)
    requires Decide(gyms, bs, userId, gymId, timestamp).Ok?
    ensures Admitted(gyms[gymId], bs + [Decide(gyms, bs, userId, gymId, timestamp).value])
  {
  }

  /** While the list is admitted, the count is never clamped: the query reports
      exactly the sensor estimate plus the bookings. */
  lemma AdmittedCountIsExact(g: Gym, bs: seq<Booking>)
    requires WellFormed(g)
    requires Admitted(g, bs)
    ensures Capacity(g, |bs|).currentCount == SensorCount(g) + |bs|
  {
  }

  class GymService {
    const repo: GymRepository

    /** The repository is valid and every gym's booking list is admitted. */
    ghost predicate Valid()
      reads this, repo
    {
      && repo.Valid()
      && forall id :: id in repo.bookings ==> id in repo.gyms && Admitted(repo.gyms[id], repo.bookings[id])
    }

    /** Over a repository whose gyms have no bookings yet, such as a freshly
        seeded one, the admission invariant holds from the start. */
    constructor (gymRepository: GymRepository)
      ensures repo == gymRepository
      ensures gymRepository.Valid()
              && (forall id :: id in gymRepository.bookings ==> id in gymRepository.gyms && gymRepository.bookings[id] == [])
              ==> Valid()
    {
      repo := gymRepository;
      new;
      forall id | id in repo.gyms && repo.Valid()
        ensures 0 <= AvailableSlots(repo.gyms[id])
      {
        AvailableSlotsBounds(repo.gyms[id]);
      }
    }

    /** Reads only: the response is the capacity of the gym's current state. */
    method GetCapacity(gymId: string) returns (r: Result<CapacityResponse>)
      requires repo.Valid()
      ensures gymId !in repo.gyms ==> r == Err(GymNotFound)
      ensures gymId in repo.gyms ==> r == Ok(Capacity(repo.gyms[gymId], |repo.BookingsOf(gymId)|))
    {
      var gym := repo.GetGymById(gymId);
      if gym.None? {
        return Err(GymNotFound);
      }
      var bookings := repo.GetBookingsByGymId(gymId);
      r := Ok(Capacity(gym.value, |bookings|));
    }

    /** Books one slot, or rejects without touching the repository. */
    method BookSlot(userId: string, gymId: string, timestamp: string) returns (r: Result<Booking>)
      modifies repo
      ensures r == Decide(old(repo.gyms), old(repo.BookingsOf(gymId)), userId, gymId, timestamp)
      ensures repo.gyms == old(repo.gyms)
      ensures r.Ok? ==> repo.bookings == old(repo.bookings)[gymId := old(repo.BookingsOf(gymId)) + [r.value]]
      ensures r.Err? ==> repo.bookings == old(repo.bookings)
      ensures old(Valid()) ==> Valid()
    {
      var gym := repo.GetGymById(gymId);
      if gym.None? {
        return Err(GymNotFound);
      }
      var bookings := repo.GetBookingsByGymId(gymId);
      var sensorCount := SensorCount(gym.value);
      var availableSlots := gym.value.maxCapacity - sensorCount;
      if |bookings| >= availableSlots {
        return Err(AtMaxCapacity);
      }
      var existing := FindByUser(bookings, userId);
      if existing.Some? {
        return Err(AlreadyBooked);
      }
      var newBooking := Booking(userId, gymId, timestamp);
      ghost var before := repo.BookingsOf(gymId);
      if Valid() {
        DecidePreservesAdmitted(repo.gyms, before, userId, gymId, timestamp);
      }
      repo.AddBooking(newBooking);
      r := Ok(newBooking);
    }
  }
}
