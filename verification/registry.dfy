/** The activity-signup registry of src/app.py, stated on values: the store
    (activity table plus participant table), each request handler as a
    function from the store before the request to the store after it and
    the response, the invariants the handlers keep, and their properties. */
module Registry {
  import opened Models

  /** What a handler answers: 200 with a message, or an HTTP error with its
      detail text. */
  datatype Response = Ok(message: string) | NotFound(detail: string) | BadRequest(detail: string)
  {
    function Status(): int
    {
      match this
      case Ok(_) => 200
      case NotFound(_) => 404
      case BadRequest(_) => 400
    }
  }

  /** The database behind the session: activities by name, and the
      participant rows in insertion order. */
  datatype Store = Store(activities: map<string, Activity>, participants: seq<Participant>)

  /** The store after a request, and what the request answered. */
  datatype Outcome = Outcome(store: Store, response: Response)

  /** One entry of the listing returned by GET /activities. */
  datatype ActivityView = ActivityView(description: string, schedule: string, maxParticipants: int,
                                       participants: seq<string>)

  /** One entry of the fixed seed table: an activity and its initial students. */
  datatype SeedEntry = SeedEntry(name: string, activity: Activity, participants: seq<string>)

  const ActivityNotFound := "Activity not found"
  const AlreadySignedUp := "Student is already signed up"
  const ActivityFull := "Activity is full"
  const NotSignedUp := "Student is not signed up for this activity"

  /** The seed table, in the order the seeding loop visits it. */
  const InitialActivities: seq<SeedEntry> := [
    SeedEntry("Chess Club",
              Activity("Learn strategies and compete in chess tournaments",
                       "Fridays, 3:30 PM - 5:00 PM", 12),
              ["michael@mergington.edu", "daniel@mergington.edu"]),
    SeedEntry("Programming Class",
              Activity("Learn programming fundamentals and build software projects",
                       "Tuesdays and Thursdays, 3:30 PM - 4:30 PM", 20),
              ["emma@mergington.edu", "sophia@mergington.edu"]),
    SeedEntry("Gym Class",
              Activity("Physical education and sports activities",
                       "Mondays, Wednesdays, Fridays, 2:00 PM - 3:00 PM", 30),
              ["john@mergington.edu", "olivia@mergington.edu"])
  ]

  // ---------------------------------------------------------------------
  // Queries on the participant table

  /** The emails of the rows whose activity is `name`, in row order: the
      query "select participants where activity_name == name". */
  function EmailsOf(ps: seq<Participant>, name: string): (r: seq<string>)
    ensures |r| <= |ps|
  {
    if ps == [] then []
    else
      var last := ps[|ps| - 1];
      EmailsOf(ps[..|ps| - 1], name) + (if last.activityName == name then [last.email] else [])
  }

  /** How many students are signed up for `name`. */
  function Count(ps: seq<Participant>, name: string): nat
  {
    |EmailsOf(ps, name)|
  }

  /** The position of the first row equal to `p`, or |ps| when there is none:
      the query "select where activity_name and email match, first()". */
  function IndexOf(ps: seq<Participant>, p: Participant): (i: nat)
    ensures i <= |ps|
    ensures i < |ps| ==> ps[i] == p
    ensures forall j :: 0 <= j < i ==> ps[j] != p
  {
    if ps == [] then 0
    else if ps[0] == p then 0
    else 1 + IndexOf(ps[1..], p)
  }

  /** `ps` without the row at position `i`. */
  function RemoveAt(ps: seq<Participant>, i: nat): seq<Participant>
    requires i < |ps|
  {
    ps[..i] + ps[i + 1..]
  }

  // ---------------------------------------------------------------------
  // Invariants of the store

  /** Every participant row refers to an existing activity. */
  ghost predicate ForeignKeysHold(s: Store)
  {
    forall p :: p in s.participants ==> p.activityName in s.activities
  }

  /** No student appears twice for the same activity. */
  ghost predicate NoDuplicateRows(ps: seq<Participant>)
  {
    forall i, j :: 0 <= i < j < |ps| ==> ps[i] != ps[j]
  }

  /** No activity has more participants than its capacity. */
  ghost predicate WithinCapacity(s: Store)
  {
    forall name :: name in s.activities ==> Count(s.participants, name) <= s.activities[name].maxParticipants
  }

  ghost predicate Valid(s: Store)
  {
    ForeignKeysHold(s) && NoDuplicateRows(s.participants) && WithinCapacity(s)
  }

  // ---------------------------------------------------------------------
  // The request handlers

  /** POST /activities/{name}/signup?email=... */
  function SignUp(s: Store, name: string, email: string): Outcome
  {
    if name !in s.activities then
      Outcome(s, NotFound(ActivityNotFound))
    else if email in EmailsOf(s.participants, name) then
      Outcome(s, BadRequest(AlreadySignedUp))
    else if |EmailsOf(s.participants, name)| >= s.activities[name].maxParticipants then
      Outcome(s, BadRequest(ActivityFull))
    else
      Outcome(Store(s.activities, s.participants + [Participant(email, name)]),
              Ok("Signed up " + email + " for " + name))
  }

  /** DELETE /activities/{name}/unregister?email=... */
  function Unregister(s: Store, name: string, email: string): Outcome
  {
    if name !in s.activities then
      Outcome(s, NotFound(ActivityNotFound))
    else
      var i := IndexOf(s.participants, Participant(email, name));
      if i == |s.participants| then
        Outcome(s, BadRequest(NotSignedUp))
      else
        Outcome(Store(s.activities, RemoveAt(s.participants, i)),
                Ok("Unregistered " + email + " from " + name))
  }

  /** The activity rows the seed table creates, keyed by name. */
  function SeedActivityMap(es: seq<SeedEntry>): map<string, Activity>
  {
    if es == [] then map[]
    else
      var last := es[|es| - 1];
      SeedActivityMap(es[..|es| - 1])[last.name := last.activity]
  }

  /** The participant rows one seed entry creates, in list order. */
  function RowsOf(e: SeedEntry): seq<Participant>
  {
    seq(|e.participants|, k requires 0 <= k < |e.participants| => Participant(e.participants[k], e.name))
  }

  /** The participant rows the seed table creates, in insertion order. */
  function SeedRows(es: seq<SeedEntry>): seq<Participant>
  {
    if es == [] then []
    else SeedRows(es[..|es| - 1]) + RowsOf(es[|es| - 1])
  }

  /** The startup seeding: nothing when some activity exists; otherwise every
      activity of the seed table and its listed students. */
  function Seed(s: Store): Store
  {
    if |s.activities| != 0 then s
    else Store(SeedActivityMap(InitialActivities), s.participants + SeedRows(InitialActivities))
  }

  /** GET /activities: every activity with the emails signed up for it. */
  function Listing(s: Store): (out: map<string, ActivityView>)
    ensures out.Keys == s.activities.Keys
  {
    map name | name in s.activities ::
      var a := s.activities[name];
      ActivityView(a.description, a.schedule, a.maxParticipants, EmailsOf(s.participants, name))
  }

  /** A request that changes the store. */
  datatype Request = SignUpRequest(name: string, email: string) | UnregisterRequest(name: string, email: string)

  function Handle(s: Store, r: Request): Outcome
  {
    match r
    case SignUpRequest(name, email) => SignUp(s, name, email)
    case UnregisterRequest(name, email) => Unregister(s, name, email)
  }

  /** The store after a sequence of requests handled one after another. */
  function Run(s: Store, rs: seq<Request>): Store
    decreases |rs|
  {
    if rs == [] then s
    else Run(Handle(s, rs[0]).store, rs[1..])
  }

  // ---------------------------------------------------------------------
  // Lemmas about the participant queries

  lemma {:induction false} EmailsOfMembership(ps: seq<Participant>, name: string, email: string)
    ensures email in EmailsOf(ps, name) <==> Participant(email, name) in ps
  {
    if ps != [] {
      var init := ps[..|ps| - 1];
      EmailsOfMembership(init, name, email);
      assert ps == init + [ps[|ps| - 1]];
    }
  }

  /** An email is listed for an activity as many times as the table holds
      the row (email, activity). */
  lemma {:induction false} EmailsOfMultiplicity(ps: seq<Participant>, name: string, email: string)
    ensures multiset(EmailsOf(ps, name))[email] == multiset(ps)[Participant(email, name)]
  {
    if ps != [] {
      var init := ps[..|ps| - 1];
      var last := ps[|ps| - 1];
      EmailsOfMultiplicity(init, name, email);
      assert ps == init + [last];
      assert multiset(ps) == multiset(init) + multiset{last};
    }
  }

  lemma {:induction false} EmailsOfConcat(a: seq<Participant>, b: seq<Participant>, name: string)
    ensures EmailsOf(a + b, name) == EmailsOf(a, name) + EmailsOf(b, name)
  {
    if b == [] {
      assert a + b == a;
    } else {
      var init := b[..|b| - 1];
      assert (a + b)[..|a + b| - 1] == a + init;
      EmailsOfConcat(a, init, name);
    }
  }

  lemma EmailsOfSingle(p: Participant, name: string)
    ensures EmailsOf([p], name) == if p.activityName == name then [p.email] else []
  {
    assert [p][..0] == [];
  }

  /** No email appears twice in `xs`. */
  ghost predicate Distinct(xs: seq<string>)
  {
    forall i, j :: 0 <= i < j < |xs| ==> xs[i] != xs[j]
  }

  /** The table has no duplicate row exactly when no activity lists an email
      twice. */
  lemma {:induction false} NoDuplicateRowsIff(ps: seq<Participant>)
    ensures NoDuplicateRows(ps) <==> forall name :: Distinct(EmailsOf(ps, name))
  {
    if ps != [] {
      var init := ps[..|ps| - 1];
      var last := ps[|ps| - 1];
      NoDuplicateRowsIff(init);
      assert ps == init + [last];
      NoDuplicateRowsAppend(init, last);
      EmailsOfMembership(init, last.activityName, last.email);
      forall name ensures Distinct(EmailsOf(ps, name)) <==>
                            Distinct(EmailsOf(init, name)) &&
                            (name == last.activityName ==> last.email !in EmailsOf(init, name)) {
        assert EmailsOf(ps, name) == EmailsOf(init, name) +
                 (if last.activityName == name then [last.email] else []);
        if last.activityName == name {
          DistinctAppend(EmailsOf(init, name), last.email);
        } else {
          assert EmailsOf(ps, name) == EmailsOf(init, name);
        }
      }
      if NoDuplicateRows(ps) {
        assert last.email !in EmailsOf(init, last.activityName);
        forall name ensures Distinct(EmailsOf(ps, name)) {
          assert Distinct(EmailsOf(init, name));
        }
      } else if NoDuplicateRows(init) {
        assert !Distinct(EmailsOf(ps, last.activityName));
      } else {
        var name :| !Distinct(EmailsOf(init, name));
        assert !Distinct(EmailsOf(ps, name));
      }
    }
  }

  /** A table with one more row has no duplicate exactly when the shorter
      one has none and lacks that row. */
  lemma NoDuplicateRowsAppend(init: seq<Participant>, last: Participant)
    ensures NoDuplicateRows(init + [last]) <==> NoDuplicateRows(init) && last !in init
  {
    var ps := init + [last];
    if NoDuplicateRows(ps) {
      forall i, j | 0 <= i < j < |init| ensures init[i] != init[j] {
        assert init[i] == ps[i] && init[j] == ps[j];
      }
      forall k | 0 <= k < |init| ensures init[k] != last {
        assert ps[k] != ps[|init|];
      }
    }
    if NoDuplicateRows(init) && last !in init {
      forall i, j | 0 <= i < j < |ps| ensures ps[i] != ps[j] {
        if j < |init| {
          assert ps[i] == init[i] && ps[j] == init[j];
        } else {
          assert ps[i] == init[i];
        }
      }
    }
  }

  /** A list with one more email has no repeat exactly when the shorter one
      has none and lacks that email. */
  lemma DistinctAppend(xs: seq<string>, e: string)
    ensures Distinct(xs + [e]) <==> Distinct(xs) && e !in xs
  {
    var ys := xs + [e];
    if Distinct(ys) {
      forall i, j | 0 <= i < j < |xs| ensures xs[i] != xs[j] {
        assert xs[i] == ys[i] && xs[j] == ys[j];
      }
      forall k | 0 <= k < |xs| ensures xs[k] != e {
        assert ys[k] != ys[|xs|];
      }
    }
    if Distinct(xs) && e !in xs {
      forall i, j | 0 <= i < j < |ys| ensures ys[i] != ys[j] {
        assert ys[i] == xs[i];
      }
    }
  }


  // ---------------------------------------------------------------------
  // Sign-up

  /** An unknown activity answers 404 and changes nothing. */
  lemma SignUpUnknownActivity(s: Store, name: string, email: string)
    requires name !in s.activities
    ensures SignUp(s, name, email) == Outcome(s, NotFound("Activity not found"))
    ensures SignUp(s, name, email).response.Status() == 404
  {
  }

  /** A student already listed answers 400 "already signed up" and changes
      nothing; this check comes before the capacity check, so it is the
      answer also when the activity is full. */
  lemma SignUpAlreadySignedUp(s: Store, name: string, email: string)
    requires name in s.activities && Participant(email, name) in s.participants
    ensures SignUp(s, name, email) == Outcome(s, BadRequest("Student is already signed up"))
    ensures SignUp(s, name, email).response.Status() == 400
  {
    EmailsOfMembership(s.participants, name, email);
  }

  /** A new student on a full activity answers 400 "full" and changes nothing. */
  lemma SignUpFull(s: Store, name: string, email: string)
    requires name in s.activities && Participant(email, name) !in s.participants
    requires Count(s.participants, name) >= s.activities[name].maxParticipants
    ensures SignUp(s, name, email) == Outcome(s, BadRequest("Activity is full"))
  {
    EmailsOfMembership(s.participants, name, email);
  }

  /** Sign-up succeeds exactly when the activity exists, the student is not
      on it, and there is room. */
  lemma SignUpSucceedsIff(s: Store, name: string, email: string)
    ensures SignUp(s, name, email).response.Ok? <==>
            name in s.activities && Participant(email, name) !in s.participants &&
            Count(s.participants, name) < s.activities[name].maxParticipants
  {
    EmailsOfMembership(s.participants, name, email);
  }

  /** A successful sign-up adds exactly the row (email, name): that
      activity's list grows by the email, every other list is unchanged. */
  lemma SignUpSuccess(s: Store, name: string, email: string)
    requires SignUp(s, name, email).response.Ok?
    ensures SignUp(s, name, email).response == Ok("Signed up " + email + " for " + name)
    ensures SignUp(s, name, email).store.activities == s.activities
    ensures SignUp(s, name, email).store.participants == s.participants + [Participant(email, name)]
    ensures EmailsOf(SignUp(s, name, email).store.participants, name) == EmailsOf(s.participants, name) + [email]
    ensures Count(SignUp(s, name, email).store.participants, name) == Count(s.participants, name) + 1
    ensures forall other :: other != name ==>
              EmailsOf(SignUp(s, name, email).store.participants, other) == EmailsOf(s.participants, other)
  {
    var ps := s.participants;
    var p := Participant(email, name);
    forall other ensures EmailsOf(ps + [p], other) == EmailsOf(ps, other) + EmailsOf([p], other) {
      EmailsOfConcat(ps, [p], other);
      EmailsOfSingle(p, other);
    }
    EmailsOfSingle(p, name);
  }

  /** Sign-up keeps every invariant of the store. */
  lemma SignUpPreservesValid(s: Store, name: string, email: string)
    requires Valid(s)
    ensures Valid(SignUp(s, name, email).store)
  {
    var o := SignUp(s, name, email);
    if o.response.Ok? {
      SignUpSucceedsIff(s, name, email);
      SignUpSuccess(s, name, email);
      var ps := s.participants;
      var ps' := o.store.participants;
      var p := Participant(email, name);
      assert NoDuplicateRows(ps') by {
        forall i, j | 0 <= i < j < |ps'| ensures ps'[i] != ps'[j] {
          if j == |ps| {
            assert ps'[i] == ps[i];
          }
        }
      }
      assert WithinCapacity(o.store) by {
        forall n | n in o.store.activities
          ensures Count(ps', n) <= o.store.activities[n].maxParticipants
        {
          if n != name {
            assert EmailsOf(ps', n) == EmailsOf(ps, n);
          }
        }
      }
    }
  }

  // ---------------------------------------------------------------------
  // Unregistering

  /** An unknown activity answers 404 and changes nothing. */
  lemma UnregisterUnknownActivity(s: Store, name: string, email: string)
    requires name !in s.activities
    ensures Unregister(s, name, email) == Outcome(s, NotFound("Activity not found"))
  {
  }

  /** A student not on the activity answers 400 and changes nothing. */
  lemma UnregisterNotSignedUp(s: Store, name: string, email: string)
    requires name in s.activities && Participant(email, name) !in s.participants
    ensures Unregister(s, name, email) == Outcome(s, BadRequest("Student is not signed up for this activity"))
    ensures Unregister(s, name, email).response.Status() == 400
  {
  }

  /** A successful unregister removes exactly one row (email, name) and
      keeps the order of the others. */
  lemma UnregisterSuccess(s: Store, name: string, email: string)
    requires name in s.activities && Participant(email, name) in s.participants
    ensures Unregister(s, name, email).response == Ok("Unregistered " + email + " from " + name)
    ensures Unregister(s, name, email).store.activities == s.activities
    ensures exists i :: 0 <= i < |s.participants| && s.participants[i] == Participant(email, name) &&
              Unregister(s, name, email).store.participants == s.participants[..i] + s.participants[i + 1..]
    ensures multiset(Unregister(s, name, email).store.participants) + multiset{Participant(email, name)}
            == multiset(s.participants)
  {
    var ps := s.participants;
    var i := IndexOf(ps, Participant(email, name));
    assert ps == ps[..i] + [ps[i]] + ps[i + 1..];
  }

  /** After a successful unregister the activity has one participant fewer,
      and the lists of all other activities are unchanged. */
  lemma UnregisterCounts(s: Store, name: string, email: string)
    requires name in s.activities && Participant(email, name) in s.participants
    ensures Count(Unregister(s, name, email).store.participants, name) == Count(s.participants, name) - 1
    ensures forall other :: other != name ==>
              EmailsOf(Unregister(s, name, email).store.participants, other) == EmailsOf(s.participants, other)
  {
    var ps := s.participants;
    var p := Participant(email, name);
    var i := IndexOf(ps, p);
    var a, b := ps[..i], ps[i + 1..];
    assert ps == a + [p] + b;
    assert Unregister(s, name, email).store.participants == a + b;
    EmailsOfRemoved(a, p, b);
  }

  /** Taking row p out of the middle of a table drops one email from its
      activity's list and leaves every other activity's list alone. */
  lemma EmailsOfRemoved(a: seq<Participant>, p: Participant, b: seq<Participant>)
    ensures Count(a + b, p.activityName) == Count(a + [p] + b, p.activityName) - 1
    ensures forall other :: other != p.activityName ==> EmailsOf(a + b, other) == EmailsOf(a + [p] + b, other)
  {
    EmailsOfSplit(a, p, b, p.activityName);
    EmailsOfSingle(p, p.activityName);
    forall other | other != p.activityName ensures EmailsOf(a + b, other) == EmailsOf(a + [p] + b, other) {
      EmailsOfSplit(a, p, b, other);
      EmailsOfSingle(p, other);
    }
  }

  /** The emails of a table with one row taken out of its middle. */
  lemma EmailsOfSplit(a: seq<Participant>, p: Participant, b: seq<Participant>, name: string)
    ensures EmailsOf(a + [p] + b, name) == EmailsOf(a, name) + EmailsOf([p], name) + EmailsOf(b, name)
    ensures EmailsOf(a + b, name) == EmailsOf(a, name) + EmailsOf(b, name)
  {
    EmailsOfConcat(a + [p], b, name);
    EmailsOfConcat(a, [p], name);
    EmailsOfConcat(a, b, name);
  }


  /** When no student was listed twice, a successful unregister leaves the
      student off the activity's list. */
  lemma UnregisterForgetsEmail(s: Store, name: string, email: string)
    requires NoDuplicateRows(s.participants)
    requires name in s.activities && Participant(email, name) in s.participants
    ensures Participant(email, name) !in Unregister(s, name, email).store.participants
    ensures email !in EmailsOf(Unregister(s, name, email).store.participants, name)
  {
    var ps := s.participants;
    var p := Participant(email, name);
    var i := IndexOf(ps, p);
    var ps' := Unregister(s, name, email).store.participants;
    assert ps' == ps[..i] + ps[i + 1..];
    forall k | 0 <= k < |ps'| ensures ps'[k] != p {
      if k < i {
        assert ps'[k] == ps[k];
      } else {
        assert ps'[k] == ps[k + 1];
      }
    }
    EmailsOfMembership(ps', name, email);
  }

  /** Unregistering keeps every invariant of the store. */
  lemma UnregisterPreservesValid(s: Store, name: string, email: string)
    requires Valid(s)
    ensures Valid(Unregister(s, name, email).store)
  {
    var o := Unregister(s, name, email);
    if o.response.Ok? {
      var ps := s.participants;
      var i := IndexOf(ps, Participant(email, name));
      var ps' := o.store.participants;
      RemoveAtKeepsRows(ps, i);
      UnregisterCounts(s, name, email);
      assert WithinCapacity(o.store) by {
        forall n | n in o.store.activities
          ensures Count(ps', n) <= o.store.activities[n].maxParticipants
        {
          if n != name {
            assert EmailsOf(ps', n) == EmailsOf(ps, n);
          }
        }
      }
    }
  }

  /** Removing a row leaves only rows that were there, and no duplicates
      where there were none. */
  lemma RemoveAtKeepsRows(ps: seq<Participant>, i: nat)
    requires i < |ps|
    ensures forall p :: p in RemoveAt(ps, i) ==> p in ps
    ensures NoDuplicateRows(ps) ==> NoDuplicateRows(RemoveAt(ps, i))
  {
    var ps' := RemoveAt(ps, i);
    forall a | 0 <= a < |ps'| ensures ps'[a] == ps[if a < i then a else a + 1] {
    }
    if NoDuplicateRows(ps) {
      forall a, b | 0 <= a < b < |ps'| ensures ps'[a] != ps'[b] {
        assert ps'[a] == ps[if a < i then a else a + 1];
        assert ps'[b] == ps[if b < i then b else b + 1];
      }
    }
  }

  /** A successful sign-up followed by unregistering the same student from
      the same activity gives back exactly the store before the sign-up. */
  lemma SignUpThenUnregister(s: Store, name: string, email: string)
    requires SignUp(s, name, email).response.Ok?
    ensures Unregister(SignUp(s, name, email).store, name, email)
            == Outcome(s, Ok("Unregistered " + email + " from " + name))
  {
    var ps := s.participants;
    var p := Participant(email, name);
    SignUpSucceedsIff(s, name, email);
    var ps' := ps + [p];
    var i := IndexOf(ps', p);
    assert ps'[|ps|] == p;
    assert forall k :: 0 <= k < |ps| ==> ps'[k] == ps[k];
    assert i == |ps|;
    assert ps'[..i] + ps'[i + 1..] == ps;
  }

  // ---------------------------------------------------------------------
  // Seeding

  /** The seed table creates the activities Chess Club, Programming Class
      and Gym Class, with the fields the table lists. */
  lemma SeedTableActivities()
    ensures SeedActivityMap(InitialActivities) == map[
              "Chess Club" := InitialActivities[0].activity,
              "Programming Class" := InitialActivities[1].activity,
              "Gym Class" := InitialActivities[2].activity]
  {
    var es := InitialActivities;
    assert es[..1][..0] == [];
    assert es[..2][..1] == es[..1];
    assert es[..3][..2] == es[..2];
    assert es[..3] == es;
    assert SeedActivityMap(es[..1]) == map["Chess Club" := es[0].activity];
    assert SeedActivityMap(es[..2]) == map["Chess Club" := es[0].activity, "Programming Class" := es[1].activity];
  }

  /** The seed table's rows are those of its three entries, in table order. */
  lemma SeedTableRows()
    ensures SeedRows(InitialActivities)
            == RowsOf(InitialActivities[0]) + RowsOf(InitialActivities[1]) + RowsOf(InitialActivities[2])
  {
    var es := InitialActivities;
    assert es[..1][..0] == [];
    assert es[..2][..1] == es[..1];
    assert es[..3][..2] == es[..2];
    assert es[..3] == es;
    assert SeedRows(es[..1]) == RowsOf(es[0]);
    assert SeedRows(es[..2]) == RowsOf(es[0]) + RowsOf(es[1]);
  }

  /** Seeding one more entry of a table adds its activity and its rows. */
  lemma SeedPrefixStep(es: seq<SeedEntry>, k: nat)
    requires k < |es|
    ensures SeedActivityMap(es[..k + 1]) == SeedActivityMap(es[..k])[es[k].name := es[k].activity]
    ensures SeedRows(es[..k + 1]) == SeedRows(es[..k]) + RowsOf(es[k])
  {
    assert es[..k + 1][..k] == es[..k];
  }

  /** The rows of one seed entry list exactly its students under its name. */
  lemma {:induction false} EmailsOfRowsOf(e: SeedEntry, name: string)
    ensures EmailsOf(RowsOf(e), name) == if e.name == name then e.participants else []
    decreases |e.participants|
  {
    var rows := RowsOf(e);
    if rows != [] {
      var e' := e.(participants := e.participants[..|e.participants| - 1]);
      assert RowsOf(e') == rows[..|rows| - 1];
      EmailsOfRowsOf(e', name);
      assert e.participants == e'.participants + [e.participants[|e.participants| - 1]];
    }
  }

  /** Who the seeded rows list for each activity name. */
  lemma SeededEmails(name: string)
    ensures EmailsOf(SeedRows(InitialActivities), name) ==
            if name == "Chess Club" then ["michael@mergington.edu", "daniel@mergington.edu"]
            else if name == "Programming Class" then ["emma@mergington.edu", "sophia@mergington.edu"]
            else if name == "Gym Class" then ["john@mergington.edu", "olivia@mergington.edu"]
            else []
  {
    SeedTableRows();
    EmailsOfThreeEntries(InitialActivities[0], InitialActivities[1], InitialActivities[2], name);
  }

  /** The rows of three seed entries list, for each name, the students of
      the entries with that name, in table order. */
  lemma EmailsOfThreeEntries(e0: SeedEntry, e1: SeedEntry, e2: SeedEntry, name: string)
    ensures EmailsOf(RowsOf(e0) + RowsOf(e1) + RowsOf(e2), name) ==
            (if e0.name == name then e0.participants else []) +
            (if e1.name == name then e1.participants else []) +
            (if e2.name == name then e2.participants else [])
  {
    EmailsOfConcat(RowsOf(e0) + RowsOf(e1), RowsOf(e2), name);
    EmailsOfConcat(RowsOf(e0), RowsOf(e1), name);
    EmailsOfRowsOf(e0, name);
    EmailsOfRowsOf(e1, name);
    EmailsOfRowsOf(e2, name);
  }

  /** Seeding a store that holds an activity does nothing. */
  lemma SeedNoOpWhenPopulated(s: Store)
    requires |s.activities| != 0
    ensures Seed(s) == s
  {
  }

  /** Seeding the empty store yields exactly the seed table's activities,
      each listing exactly its seed students, so at least one activity
      exists afterwards. */
  lemma SeedEmptyStore()
    ensures Seed(Store(map[], [])).activities.Keys == {"Chess Club", "Programming Class", "Gym Class"}
    ensures forall k :: 0 <= k < |InitialActivities| ==>
              var e := InitialActivities[k];
              e.name in Seed(Store(map[], [])).activities &&
              Seed(Store(map[], [])).activities[e.name] == e.activity &&
              EmailsOf(Seed(Store(map[], [])).participants, e.name) == e.participants
    ensures |Seed(Store(map[], [])).activities| >= 1
  {
    var s := Seed(Store(map[], []));
    assert s == Store(SeedActivityMap(InitialActivities), SeedRows(InitialActivities));
    SeedTableActivities();
    SeedTableListed();
    assert "Chess Club" in s.activities.Keys;
  }

  /** Each entry of the seed table is an activity of the seeded map, with
      exactly its listed students among the seeded rows. */
  lemma SeedTableListed()
    ensures forall k :: 0 <= k < |InitialActivities| ==>
              var e := InitialActivities[k];
              e.name in SeedActivityMap(InitialActivities) &&
              SeedActivityMap(InitialActivities)[e.name] == e.activity &&
              EmailsOf(SeedRows(InitialActivities), e.name) == e.participants
  {
    SeedTableActivities();
    forall k | 0 <= k < |InitialActivities|
      ensures var e := InitialActivities[k];
              e.name in SeedActivityMap(InitialActivities) &&
              SeedActivityMap(InitialActivities)[e.name] == e.activity &&
              EmailsOf(SeedRows(InitialActivities), e.name) == e.participants
    {
      if k == 0 {
        SeededEmails("Chess Club");
      } else if k == 1 {
        SeededEmails("Programming Class");
      } else {
        SeededEmails("Gym Class");
      }
    }
  }

  /** Seeding twice is seeding once. */
  lemma SeedIdempotent(s: Store)
    ensures Seed(Seed(s)) == Seed(s)
  {
    if |s.activities| == 0 {
      SeedTableActivities();
      var m := Seed(s).activities;
      assert "Chess Club" in m.Keys;
      assert |m.Keys| != 0;
    }
  }

  /** Every seeded row names a seeded activity. */
  lemma SeededForeignKeys()
    ensures ForeignKeysHold(Seed(Store(map[], [])))
  {
    SeedTableActivities();
    SeedTableRows();
  }

  /** The six seeded rows are pairwise distinct. */
  lemma SeededRowsDistinct()
    ensures NoDuplicateRows(Seed(Store(map[], [])).participants)
  {
    assert Seed(Store(map[], [])).participants == SeedRows(InitialActivities);
    SeedRowsDistinct();
  }

  lemma SeedRowsDistinct()
    ensures NoDuplicateRows(SeedRows(InitialActivities))
  {
    forall name ensures Distinct(EmailsOf(SeedRows(InitialActivities), name)) {
      SeededEmails(name);
    }
    NoDuplicateRowsIff(SeedRows(InitialActivities));
  }

  /** The store seeded from empty satisfies all invariants: every row names a
      seeded activity, the six rows are distinct, and each activity has 2
      students against a capacity of 12, 20 or 30. */
  lemma SeededStoreValid()
    ensures Valid(Seed(Store(map[], [])))
  {
    SeededForeignKeys();
    SeededRowsDistinct();
    SeededWithinCapacity();
  }

  /** Each seeded activity has 2 students, within its capacity of 12, 20 or 30. */
  lemma SeededWithinCapacity()
    ensures WithinCapacity(Seed(Store(map[], [])))
  {
    SeedTableActivities();
    var s := Seed(Store(map[], []));
    assert s.participants == SeedRows(InitialActivities);
    assert forall name :: name in s.activities ==> s.activities[name].maxParticipants >= 12;
    forall name | name in s.activities
      ensures Count(s.participants, name) <= 2
    {
      SeededEmails(name);
    }
  }

  /** A store whose rows all name an activity has an activity as soon as it
      has a row. */
  lemma RowsNeedActivity(s: Store)
    requires ForeignKeysHold(s)
    ensures s.participants != [] ==> |s.activities| != 0
  {
    if s.participants != [] {
      assert s.participants[0].activityName in s.activities;
    }
  }

  /** Seeding a valid store gives a valid store: a valid store without
      activities holds no rows, so it is seeded to the seed table exactly. */
  lemma SeedPreservesValid(s: Store)
    requires Valid(s)
    ensures Valid(Seed(s))
  {
    if |s.activities| == 0 {
      RowsNeedActivity(s);
      assert s == Store(map[], []);
      SeededStoreValid();
    }
  }

  // ---------------------------------------------------------------------
  // Listing

  /** The listing has one entry per activity, copies the activity's fields,
      and lists exactly the students with a row for that activity, as many
      as there are rows. */
  lemma ListingContents(s: Store, name: string, email: string)
    requires name in s.activities
    ensures name in Listing(s)
    ensures Listing(s)[name].description == s.activities[name].description
    ensures Listing(s)[name].schedule == s.activities[name].schedule
    ensures Listing(s)[name].maxParticipants == s.activities[name].maxParticipants
    ensures email in Listing(s)[name].participants <==> Participant(email, name) in s.participants
    ensures multiset(Listing(s)[name].participants)[email] == multiset(s.participants)[Participant(email, name)]
    ensures NoDuplicateRows(s.participants) ==> Distinct(Listing(s)[name].participants)
  {
    EmailsOfMembership(s.participants, name, email);
    EmailsOfMultiplicity(s.participants, name, email);
    NoDuplicateRowsIff(s.participants);
  }

  // ---------------------------------------------------------------------
  // Any sequence of requests

  /** Starting from a valid store, every sequence of sign-ups and
      unregisters keeps every activity within capacity, every student at
      most once per activity and every row pointing at an activity. */
  lemma {:induction false} RunPreservesValid(s: Store, rs: seq<Request>)
    requires Valid(s)
    ensures Valid(Run(s, rs))
    decreases |rs|
  {
    if rs != [] {
      match rs[0] {
        case SignUpRequest(name, email) => SignUpPreservesValid(s, name, email);
        case UnregisterRequest(name, email) => UnregisterPreservesValid(s, name, email);
      }
      RunPreservesValid(Handle(s, rs[0]).store, rs[1..]);
    }
  }

  // ---------------------------------------------------------------------
  // The scenarios the system is expected to show on the seeded store

  /** The seeded store lists Chess Club with exactly its 2 students,
      michael among them. */
  lemma SeededChessClubListed()
    ensures "Chess Club" in Listing(Seed(Store(map[], [])))
    ensures Listing(Seed(Store(map[], [])))["Chess Club"].participants
            == ["michael@mergington.edu", "daniel@mergington.edu"]
  {
    SeedTableActivities();
    SeededEmails("Chess Club");
    assert Seed(Store(map[], [])).participants == SeedRows(InitialActivities);
  }

  /** On the seeded store a new student joins Chess Club, which then has 3
      students. */
  lemma SeededSignUpNewStudent(email: string)
    requires email != "michael@mergington.edu" && email != "daniel@mergington.edu"
    ensures SignUp(Seed(Store(map[], [])), "Chess Club", email).response.Ok?
    ensures Count(SignUp(Seed(Store(map[], [])), "Chess Club", email).store.participants, "Chess Club") == 3
  {
    SeededChessClubListed();
    var s := Seed(Store(map[], []));
    assert EmailsOf(s.participants, "Chess Club") == Listing(s)["Chess Club"].participants;
    SeedTableActivities();
    assert s.activities["Chess Club"].maxParticipants == 12;
    SignUpSuccess(s, "Chess Club", email);
  }

  /** On the seeded store michael is refused Chess Club as already signed up. */
  lemma SeededSignUpAgain()
    ensures SignUp(Seed(Store(map[], [])), "Chess Club", "michael@mergington.edu").response
            == BadRequest("Student is already signed up")
  {
    SeededChessClubListed();
    var s := Seed(Store(map[], []));
    assert EmailsOf(s.participants, "Chess Club") == Listing(s)["Chess Club"].participants;
  }

  /** On the seeded store, unregistering from Chess Club a student who never
      signed up is refused. */
  lemma SeededUnregisterStranger(email: string)
    requires email != "michael@mergington.edu" && email != "daniel@mergington.edu"
    ensures Unregister(Seed(Store(map[], [])), "Chess Club", email).response
            == BadRequest("Student is not signed up for this activity")
  {
    SeededChessClubListed();
    var s := Seed(Store(map[], []));
    assert EmailsOf(s.participants, "Chess Club") == Listing(s)["Chess Club"].participants;
    EmailsOfMembership(s.participants, "Chess Club", email);
  }

  /** On the seeded store, signing up for an activity that is not in the
      seed table answers 404. */
  lemma SeededUnknownActivity(name: string, email: string)
    requires name != "Chess Club" && name != "Programming Class" && name != "Gym Class"
    ensures SignUp(Seed(Store(map[], [])), name, email).response == NotFound("Activity not found")
  {
    SeedTableActivities();
  }
}
