/** The request handlers of src/app.py, run against a database session
    whose two tables they change in place. Each handler is proved to do
    what the corresponding function of module Registry says; those that
    change the tables are also proved to keep the store's invariants. */
module App {
  import opened Models
  import Registry

  /** A session on the activity database: the `activity` table keyed by
      name and the `participant` table in insertion order. */
  class Session {
    var activities: map<string, Activity>
    var participants: seq<Participant>

    /** The two tables as a value. */
    function State(): Registry.Store
      reads this
    {
      Registry.Store(activities, participants)
    }

    /** A session on a freshly created, empty database. */
    constructor ()
      ensures State() == Registry.Store(map[], [])
    {
      activities := map[];
      participants := [];
    }

    /** The emails of the rows for activity `name`, in row order. */
    method EmailsFor(name: string) returns (emails: seq<string>)
      ensures emails == Registry.EmailsOf(participants, name)
    {
      emails := [];
      for i := 0 to |participants|
        invariant emails == Registry.EmailsOf(participants[..i], name)
      {
        assert participants[..i + 1][..i] == participants[..i];
        var p := participants[i];
        if p.activityName == name {
          emails := emails + [p.email];
        }
      }
      assert participants[..|participants|] == participants;
    }

    /** The position of the first row for `email` on activity `name`, or
        |participants| when there is none. */
    method FindRow(name: string, email: string) returns (i: nat)
      ensures i <= |participants|
      ensures i < |participants| ==> participants[i] == Participant(email, name)
      ensures i == Registry.IndexOf(participants, Participant(email, name))
    {
      i := 0;
      while i < |participants|
        invariant i <= |participants|
        invariant forall j :: 0 <= j < i ==> participants[j] != Participant(email, name)
      {
        if participants[i] == Participant(email, name) {
          return;
        }
        i := i + 1;
      }
    }

    /** Startup seeding: when no activity exists, add every activity of the
        seed table and then each of its students, in table order. */
    method SeedIfEmpty()
      modifies this
      ensures State() == Registry.Seed(old(State()))
      ensures Registry.Valid(old(State())) ==> Registry.Valid(State())
    {
      if Registry.Valid(State()) {
        Registry.SeedPreservesValid(State());
      }
      if |activities| != 0 {
        return;
      }
      assert activities == map[];
      InsertSeedTable(Registry.InitialActivities);
    }

    /** The loop of the seeding over a seed table, on an empty activity table. */
    method InsertSeedTable(es: seq<Registry.SeedEntry>)
      requires activities == map[]
      modifies this
      ensures activities == Registry.SeedActivityMap(es)
      ensures participants == old(participants) + Registry.SeedRows(es)
    {
      for k := 0 to |es|
        invariant activities == Registry.SeedActivityMap(es[..k])
        invariant participants == old(participants) + Registry.SeedRows(es[..k])
      {
        var entry := es[k];
        Registry.SeedPrefixStep(es, k);
        activities := activities[entry.name := entry.activity];
        InsertSeedRows(entry);
      }
      assert es[..|es|] == es;
    }

    /** Adds one row per listed student of a seed entry, in list order. */
    method InsertSeedRows(entry: Registry.SeedEntry)
      modifies this
      ensures activities == old(activities)
      ensures participants == old(participants) + Registry.RowsOf(entry)
    {
      ghost var rows := Registry.RowsOf(entry);
      for j := 0 to |entry.participants|
        invariant activities == old(activities)
        invariant participants == old(participants) + rows[..j]
      {
        assert rows[..j + 1] == rows[..j] + [Participant(entry.participants[j], entry.name)];
        participants := participants + [Participant(entry.participants[j], entry.name)];
      }
      assert rows[..|entry.participants|] == rows;
    }

    /** GET /activities: each activity with the emails of its rows. */
    method GetActivities() returns (out: map<string, Registry.ActivityView>)
      ensures out == Registry.Listing(State())
    {
      out := map[];
      var remaining := activities.Keys;
      while remaining != {}
        invariant remaining <= activities.Keys
        invariant out.Keys == activities.Keys - remaining
        invariant forall name :: name in out ==> out[name] == Registry.Listing(State())[name]
        decreases remaining
      {
        var name :| name in remaining;
        var parts := EmailsFor(name);
        var a := activities[name];
        out := out[name := Registry.ActivityView(a.description, a.schedule, a.maxParticipants, parts)];
        remaining := remaining - {name};
      }
    }

    /** POST /activities/{name}/signup?email=... */
    method SignUp(name: string, email: string) returns (r: Registry.Response)
      modifies this
      ensures Registry.Outcome(State(), r) == Registry.SignUp(old(State()), name, email)
      ensures Registry.Valid(old(State())) ==> Registry.Valid(State())
    {
      if Registry.Valid(State()) {
        Registry.SignUpPreservesValid(State(), name, email);
      }
      if name !in activities {
        return Registry.NotFound(Registry.ActivityNotFound);
      }
      var emails := EmailsFor(name);
      if email in emails {
        return Registry.BadRequest(Registry.AlreadySignedUp);
      }
      if |emails| >= activities[name].maxParticipants {
        return Registry.BadRequest(Registry.ActivityFull);
      }
      participants := participants + [Participant(email, name)];
      r := Registry.Ok("Signed up " + email + " for " + name);
    }

    /** DELETE /activities/{name}/unregister?email=... */
    method Unregister(name: string, email: string) returns (r: Registry.Response)
      modifies this
      ensures Registry.Outcome(State(), r) == Registry.Unregister(old(State()), name, email)
      ensures Registry.Valid(old(State())) ==> Registry.Valid(State())
    {
      if Registry.Valid(State()) {
        Registry.UnregisterPreservesValid(State(), name, email);
      }
      if name !in activities {
        return Registry.NotFound(Registry.ActivityNotFound);
      }
      var i := FindRow(name, email);
      if i == |participants| {
        return Registry.BadRequest(Registry.NotSignedUp);
      }
      participants := participants[..i] + participants[i + 1..];
      r := Registry.Ok("Unregistered " + email + " from " + name);
    }
  }
}
