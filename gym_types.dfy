/** The records the gym backend passes around, and the outcomes of its operations. */
module GymTypes {

  /** A gym as the repository stores it. The display name is not modelled. */
  datatype Gym = Gym(id: string, maxCapacity: int, currentFullness: int)

  /** A confirmed reservation of one user at one gym; the timestamp is opaque. */
  datatype Booking = Booking(userId: string, gymId: string, timestamp: string)

  /** What a capacity query reports. */
  datatype CapacityResponse = CapacityResponse(
    gymId: string,
    capacityPercentage: int,
    maxCapacity: int,
    currentCount: int)

  datatype Option<+T> = None | Some(value: T)

  /** The three errors the service throws, one constructor per message. */
  datatype Error =
    | GymNotFound      // "Gym not found"
    | AtMaxCapacity    // "Gym is at max capacity"
    | AlreadyBooked    // "User already has a booking for this gym"

  datatype Result<+T> = Ok(value: T) | Err(error: Error)

  /** A gym whose capacity is positive and whose sensor reading is a percentage. */
  predicate WellFormed(g: Gym) {
    g.maxCapacity > 0 && 0 <= g.currentFullness <= 100
  }
}
