/** The two JPA entities. Every field is a nullable Java reference, hence `Option`; the columns the
    table declares `nullable = false` are enforced by the stores, not by these values. */
module Entities {
  import opened Wrappers

  /** A row of the `students` table. The id is generated by the store on insert, so an entity built
      by the mapper or by the CSV import carries `None` until it is saved. */
  datatype Student<L> = Student(id: Option<int>, username: Option<string>, level: Option<L>)

  /** A row of the `admins` table; `password` holds the encoded password. */
  datatype Admin = Admin(id: Option<int>, username: Option<string>, password: Option<string>)

  /** The entity satisfies the `nullable = false` columns of `students`. */
  predicate Persistable<L>(s: Student<L>)
  {
    s.username.Some? && s.level.Some?
  }
}
