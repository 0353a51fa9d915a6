/**
 * The objects the workflow shares by reference: a course (held both by the
 * course table and by the booked list), a subscription and a user. Only the
 * accessors the workflow relies on are modelled; the draft implementations
 * of these objects are superseded by their headers, which this model
 * follows.
 */
module Courses {
  import opened DateTime
  import opened HashMap

  class Course {
    const id: Key
    const name: string
    const datetime: DateTime
    const seatsTotal: Key
    var seatsBooked: Key

    /** create_course. */
    constructor (id: Key, name: string, datetime: DateTime, seatsTotal: Key, seatsBooked: Key)
      ensures this.id == id && this.name == name && this.datetime == datetime
      ensures this.seatsTotal == seatsTotal && this.seatsBooked == seatsBooked
    {
      this.id := id;
      this.name := name;
      this.datetime := datetime;
      this.seatsTotal := seatsTotal;
      this.seatsBooked := seatsBooked;
    }

    /** set_course_seats_booked: the int argument lands in a uint16 field. */
    method SetSeatsBooked(value: int)
      modifies this
      ensures seatsBooked == value % 0x1_0000
    {
      seatsBooked := value % 0x1_0000;
    }
  }

  /** compare_course_id on courses: equality of the course id. */
  predicate CourseHasId(c: Course, id: Key) {
    c.id == id
  }

  class Subscription {
    var startDate: DateTime
    var endDate: DateTime

    constructor (startDate: DateTime, endDate: DateTime)
      ensures this.startDate == startDate && this.endDate == endDate
    {
      this.startDate := startDate;
      this.endDate := endDate;
    }

    /** set_subscription_renew: replaces both dates. */
    method SetRenew(startDate: DateTime, endDate: DateTime)
      modifies this
      ensures this.startDate == startDate && this.endDate == endDate
    {
      this.startDate := startDate;
      this.endDate := endDate;
    }
  }

  /** The part of a user the workflow reads and writes. */
  class User {
    const subscription: Subscription
    var lastReportDate: DateTime

    constructor (subscription: Subscription, lastReportDate: DateTime)
      ensures this.subscription == subscription && this.lastReportDate == lastReportDate
    {
      this.subscription := subscription;
      this.lastReportDate := lastReportDate;
    }
  }
}
