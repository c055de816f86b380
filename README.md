# Gym admission control, modelled in Dafny

This project models the admission-control core of a gym booking backend. A
gym has a maximum capacity and a live sensor reading, given as a percentage
of that capacity. Users reserve slots at the gym. The backend answers two
questions.

- **Capacity query (`getCapacity`).** It blends the sensor estimate with the
  number of confirmed bookings. It reports a count clamped to the capacity and
  a percentage capped at 100.
- **Booking (`bookSlot`).** It rejects an unknown gym. It then rejects a
  request once the bookings fill the slots the sensor leaves free. Last, it
  rejects a user who already holds a booking. Otherwise it appends exactly one
  booking.

The repository holds the gyms and each gym's booking list. It is seeded with
one gym, `gym-123`, with capacity 100 and the sensor at 75%. It appends
bookings without any check.

Files:

- `gym_types.dfy` (module `GymTypes`): the `Gym`, `Booking` and
  `CapacityResponse` records. It also holds the three errors, one per message
  the service throws, and the `Option`/`Result` wrappers.
- `gym_repository.dfy` (module `Repositories`): class `GymRepository`, with
  two map fields. The constructor sets both. `AddBooking` reassigns only
  `bookings`, and `gyms` never changes after construction.
- `gym_service.dfy` (module `Services`) holds three things:
  - the pure capacity computation (`SensorCount`, `RoundHalfUp`, `Capacity`)
    and the lemmas about it;
  - the admission decision as a function (`Decide`), built on `FindByUser`,
    which models `Array.prototype.find`;
  - class `GymService`, whose `BookSlot` is proved against `Decide`. It also
    keeps the admission invariant `Valid()`: every gym's bookings are no more
    than its available slots, its user ids are unique, and each booking is
    filed under its own gym.
- `gym_scenarios.dfy` (module `Scenarios`): the scenarios of the service's
  test file. Each one is a client method that builds a fresh repository and
  service. `SeedCapacityScenario` also adds one case the test file lacks: a
  capacity query on an unknown gym, which the service rejects.

Arithmetic is exact integer arithmetic:

- The sensor count `floor(fullness / 100 * max)` is `fullness * max / 100`.
  Dafny's division rounds down for a positive divisor.
- `Math.round(count / max * 100)` is `(200 * count + max) / (2 * max)`. This
  is round-half-up, which is what `Math.round` does, also for negative values.

## Model

| member | source | states |
|---|---|---|
| `Repositories.GymRepository.constructor` | backend/src/repositories/gym.repository.ts:7-16 | After construction the only gym is `gym-123` with capacity 100 and fullness 75. Its booking list is empty, and the repository invariant holds. |
| `Repositories.GymRepository.GetGymById` | backend/src/repositories/gym.repository.ts:18-20 | Absent exactly when the id is not in the gyms map; otherwise the stored gym. Under the invariant, that gym carries the requested id and is well formed. |
| `Repositories.GymRepository.GetBookingsByGymId` | backend/src/repositories/gym.repository.ts:22-24 | The empty sequence for a gym id with no entry, else the stored list. Under the invariant, every returned booking names that gym. |
| `Repositories.GymRepository.AddBooking` | backend/src/repositories/gym.repository.ts:26-29 | Unconditional append: the list for `booking.gymId` becomes the old list followed by `booking`. The gyms map and every other gym's list are unchanged, and the invariant is preserved. |
| `Services.SensorCount` | backend/src/services/gym.service.ts:49 | The sensor estimate is the floor of `fullness * max / 100`: `100 r <= fullness * max < 100 (r + 1)`. |
| `Services.AvailableSlotsBounds` | backend/src/services/gym.service.ts:49-50 | For a gym with positive capacity and fullness in [0, 100], the sensor estimate lies in [0, max]. So the available slots `max - sensorCount` lie in [0, max]. |
| `Services.RoundHalfUp` | backend/src/services/gym.service.ts:21 | `Math.round(n / d)`: the result is the integer nearest to `n / d`, with halves rounded up (`d (2r - 1) <= 2n < d (2r + 1)`). |
| `Services.Capacity` | backend/src/services/gym.service.ts:18-27 | The response echoes the gym id and capacity. The count is at most the capacity, and the percentage is at most 100. Both are non-negative when the fullness is. |
| `Services.CapacityPercentageRounds` | backend/src/services/gym.service.ts:19-21 | The percentage is the unclamped blended count as a share of the capacity. It is rounded to the nearest integer with halves up, or it is 100 when that share is 99.5% or more. |
| `Services.ClampedCountReadsFull` | backend/src/services/gym.service.ts:19-27 | Whenever the reported count is clamped to the capacity, the percentage is exactly 100. |
| `Services.CapacityMonotone` | backend/src/services/gym.service.ts:18-27 | More bookings never lower the reported count or the reported percentage. |
| `Services.FindByUser` | backend/src/services/gym.service.ts:58 | Finds a booking exactly when some booking has the user id. The one found is the first such booking in the list. |
| `Services.Decide` | backend/src/services/gym.service.ts:40-70 | Unknown gym if and only if `GymNotFound`. `AtMaxCapacity` comes if and only if the gym exists and the bookings reach the available slots, whatever the user, because capacity is checked before duplicates. `AlreadyBooked` comes if and only if there is room and the user already has a booking. Success comes if and only if there is room and the user is new, and the booking carries the given user, gym and timestamp. |
| `Services.DecidePreservesAdmitted` | backend/src/services/gym.service.ts:53-69 | A successful decision keeps the list admitted after its booking is appended: bookings stay within the available slots, user ids stay unique, and all bookings name the gym. |
| `Services.AdmittedCountIsExact` | backend/src/services/gym.service.ts:19-27 | While a gym's list is admitted, the clamp never fires. The query then reports exactly the sensor estimate plus the number of bookings. |
| `Services.GymService.constructor` | backend/src/services/gym.service.ts:5 | The service wraps the given repository. If every gym in a valid repository has an empty booking list, as a freshly seeded repository has, the admission invariant `Valid()` holds from the start. This is the base case that `BookSlot`'s preservation clause builds on. |
| `Services.GymService.GetCapacity` | backend/src/services/gym.service.ts:7-29 | `GymNotFound` for an id with no gym, else `Capacity` of the stored gym and its current booking count. It has no `modifies` clause, so it changes nothing, and two calls with no booking in between give the same result. |
| `Services.GymService.BookSlot` | backend/src/services/gym.service.ts:40-71 | The outcome is `Decide` on the state before the call. On success the gym's list grows by exactly the returned booking at its end. On any rejection the bookings are unchanged. The gyms never change, and the admission invariant is preserved. |
| `Scenarios.SeedCapacityScenario` | backend/src/tests/gym.service.test.ts:14-34 | On the seed, the capacity query gives 75% with count 75. A booking by `user-1` succeeds, after which the query gives 76% with count 76. A second booking by `user-1` fails with `AlreadyBooked`. The test file has no unknown-gym case. The scenario adds one, following backend/src/services/gym.service.ts:8-11: an unknown gym id gives `GymNotFound`. The admission invariant holds on the fresh service. |
| `Scenarios.FillSeedGym` | backend/src/tests/gym.service.test.ts:36-43 | On the seed, 25 bookings by distinct users all succeed in order, each with its own user id. The 26th request fails with `AtMaxCapacity`. The admission invariant holds throughout. |

## Left out

- Floating point: the source computes with JavaScript doubles, and the model uses exact integers. The two can differ. For example, `0.29 * 100` floors to 28 in JavaScript, while the exact value is 29.
- Services.Capacity: requires a positive capacity, so it excludes zero and negative capacities. With capacity 0 the source divides by zero. A count above zero then gives `Infinity`, which `Math.min` caps at 100. A count of zero gives `NaN`. Negative capacities give their own floating-point results. None of these cases is modelled. They cannot arise here, because the only gym is the seeded one, with capacity 100, and gyms never change.
- Services.GymService.GetCapacity: requires the repository invariant, so that every stored gym has a positive capacity. The only gym the repository ever holds is the seeded one, which has capacity 100.
- Concurrency and `async`: the source's check-then-append is not atomic across awaits. The model runs `GetCapacity` and `BookSlot` as sequential method calls. Concurrent admission, and the per-gym serialisation a concurrent version needs, are not modelled.
- Timestamps: `new Date().toISOString()` is a clock call. It is a `timestamp` parameter of `BookSlot`, treated as an opaque string.
- The gym's display `name` field is not modelled, because no core operation reads it.
- HTTP routes (status codes, and the route's check that `userId` is present), server start-up, CORS, the health check, the mobile app and the cloud infrastructure stack are transport, UI or deployment code. They are not part of this model.
- Negative availability: the code does not clamp negative available slots to zero, and the model follows the code. The outcome is the same either way, because a list length is never below a negative bound, so the request is rejected for capacity.
- Clamped count in the percentage: the code computes the percentage from the unclamped count, not the clamped one, and the model follows the code. `ClampedCountReadsFull` shows that both give 100 whenever the clamp applies.
