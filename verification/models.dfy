/** The two tables of the school's activity store (src/models.py). */
module Models {

  /** A row of the `activity` table. The activity's name is the table's
      primary key, so it is the key under which the store keeps the row and
      not a field of it. */
  datatype Activity = Activity(description: string, schedule: string, maxParticipants: int)

  /** A row of the `participant` table: a student's registration for one
      activity. `activityName` is a foreign key into the `activity` table.
      The surrogate numeric id of the table is not modelled. */
  datatype Participant = Participant(email: string, activityName: string)
}
