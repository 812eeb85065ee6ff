/** The one entity of the dashboard: a student record as loaded from
    `students.json`. */
module Records {

  /** A flat student record. Only `send` is ever changed by the dashboard. */
  datatype Student = Student(
    id: int,
    forename: string,
    surname: string,
    form: string,
    send: bool,
    imageUrl: string)

  /** `b` agrees with `a` on every field except possibly `send`. */
  predicate SameExceptSend(a: Student, b: Student) {
    a.(send := b.send) == b
  }
}
