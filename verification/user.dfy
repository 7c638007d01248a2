/** User.addTechnology of Models/user.js as a pure state transition over the
    rows of the users, technologies and user_technologies tables. */
module User {
  import opened Errors
  import Decimal

  type Username = string

  /** A technology's id, as the integer compared with the technologies key. */
  type TechId = int

  /** A user_technologies row: only the two columns the checks read. */
  type Pair = (Username, TechId)

  /** The tables addTechnology reads and writes. user_technologies is a list
      of rows, because nothing below the checks stops a row being stored
      twice. */
  datatype Store = Store(
    users: set<Username>,
    technologies: set<TechId>,
    userTechnologies: seq<Pair>)

  /** What the caller sees: the call resolves (to undefined) or it throws. */
  datatype Outcome = Done | Failed(error: Error)

  datatype Step = Step(store: Store, outcome: Outcome)

  function UserNotFound(username: Username): Error
  {
    NotFound("No user with username: " + username)
  }

  function TechnologyNotFound(techId: TechId): Error
  {
    NotFound("No technology with ID: " + Decimal.FromInt(techId))
  }

  function AlreadyAssociated(username: Username, techId: TechId): Error
  {
    BadRequest("User " + username + " is already associated with technology " + Decimal.FromInt(techId))
  }

  predicate Associated(db: Store, username: Username, techId: TechId)
  {
    (username, techId) in db.userTechnologies
  }

  /** addTechnology: the user must exist, then the technology, then the pair
      must not be stored yet; only then is the pair inserted. */
  function AddTechnology(db: Store, username: Username, techId: TechId): (r: Step)
    ensures r.outcome.Done? <==>
              username in db.users && techId in db.technologies && !Associated(db, username, techId)
    ensures r.outcome.Failed? ==> r.store == db
    ensures r.outcome.Done? ==>
              && r.store.users == db.users
              && r.store.technologies == db.technologies
              && r.store.userTechnologies == db.userTechnologies + [(username, techId)]
  {
    if username !in db.users then Step(db, Failed(UserNotFound(username)))
    else if techId !in db.technologies then Step(db, Failed(TechnologyNotFound(techId)))
    else if Associated(db, username, techId) then Step(db, Failed(AlreadyAssociated(username, techId)))
    else Step(db.(userTechnologies := db.userTechnologies + [(username, techId)]), Done)
  }

  /** Which error a failing call reports: the user check comes first, then
      the technology check, then the duplicate check. */
  lemma ErrorPrecedence(db: Store, username: Username, techId: TechId)
    ensures username !in db.users ==>
              AddTechnology(db, username, techId).outcome == Failed(UserNotFound(username))
    ensures username in db.users && techId !in db.technologies ==>
              AddTechnology(db, username, techId).outcome == Failed(TechnologyNotFound(techId))
    ensures username in db.users && techId in db.technologies && Associated(db, username, techId) ==>
              AddTechnology(db, username, techId).outcome == Failed(AlreadyAssociated(username, techId))
  {
  }

  /** Repeating a call that succeeded is refused as a duplicate and stores
      nothing more. */
  lemma RepeatIsRejected(db: Store, username: Username, techId: TechId)
    requires AddTechnology(db, username, techId).outcome.Done?
    ensures var db' := AddTechnology(db, username, techId).store;
            && AddTechnology(db', username, techId).outcome == Failed(AlreadyAssociated(username, techId))
            && AddTechnology(db', username, techId).store == db'
  {
    var db' := AddTechnology(db, username, techId).store;
    assert db'.userTechnologies[|db.userTechnologies|] == (username, techId);
  }

  /** The two invariants the checks keep: every stored pair names an existing
      user and technology, and no pair is stored twice. */
  predicate WellFormed(db: Store)
  {
    && (forall i :: 0 <= i < |db.userTechnologies| ==>
          db.userTechnologies[i].0 in db.users && db.userTechnologies[i].1 in db.technologies)
    && (forall i, j :: 0 <= i < j < |db.userTechnologies| ==>
          db.userTechnologies[i] != db.userTechnologies[j])
  }

  lemma AddTechnologyPreservesWellFormed(db: Store, username: Username, techId: TechId)
    requires WellFormed(db)
    ensures WellFormed(AddTechnology(db, username, techId).store)
  {
  }

  /** The requests handled one after another, each against the tables the
      previous one left behind; a failing request changes nothing. */
  function Serve(db: Store, requests: seq<Pair>): Store
    decreases |requests|
  {
    if |requests| == 0 then db
    else Serve(AddTechnology(db, requests[0].0, requests[0].1).store, requests[1..])
  }

  /** The stored pairs, as a set. */
  function Pairs(db: Store): set<Pair>
  {
    set i | 0 <= i < |db.userTechnologies| :: db.userTechnologies[i]
  }

  lemma PairsAppend(db: Store, p: Pair)
    ensures Pairs(db.(userTechnologies := db.userTechnologies + [p])) == Pairs(db) + {p}
  {
    var db' := db.(userTechnologies := db.userTechnologies + [p]);
    assert db'.userTechnologies[|db.userTechnologies|] == p;
    forall q | q in Pairs(db)
      ensures q in Pairs(db')
    {
      var k :| 0 <= k < |db.userTechnologies| && db.userTechnologies[k] == q;
      assert db'.userTechnologies[k] == q;
    }
  }

  /** The requests that name an existing user and technology. */
  function Admissible(db: Store, requests: seq<Pair>): set<Pair>
  {
    set i | 0 <= i < |requests| && requests[i].0 in db.users && requests[i].1 in db.technologies :: requests[i]
  }

  /** Any run of requests keeps the invariants: in particular, however often
      a pair is requested it is stored at most once. */
  lemma {:induction false} ServePreservesWellFormed(db: Store, requests: seq<Pair>)
    requires WellFormed(db)
    ensures WellFormed(Serve(db, requests))
    decreases |requests|
  {
    if |requests| > 0 {
      AddTechnologyPreservesWellFormed(db, requests[0].0, requests[0].1);
      ServePreservesWellFormed(AddTechnology(db, requests[0].0, requests[0].1).store, requests[1..]);
    }
  }

  /** After a run of requests the stored pairs are exactly the old ones plus
      every requested pair whose user and technology exist; the users and
      technologies are untouched. */
  lemma {:induction false} ServeStoresAdmissible(db: Store, requests: seq<Pair>)
    ensures Serve(db, requests).users == db.users
    ensures Serve(db, requests).technologies == db.technologies
    ensures Pairs(Serve(db, requests)) == Pairs(db) + Admissible(db, requests)
    decreases |requests|
  {
    if |requests| > 0 {
      var p := requests[0];
      var next := AddTechnology(db, p.0, p.1).store;
      ServeStoresAdmissible(next, requests[1..]);
      assert Admissible(next, requests[1..]) == Admissible(db, requests[1..]);
      if p.0 in db.users && p.1 in db.technologies {
        if Associated(db, p.0, p.1) {
          var k :| 0 <= k < |db.userTechnologies| && db.userTechnologies[k] == p;
          assert p in Pairs(db);
        } else {
          PairsAppend(db, p);
        }
        assert Admissible(db, requests) == {p} + Admissible(db, requests[1..]);
      } else {
        assert next == db;
        assert Admissible(db, requests) == Admissible(db, requests[1..]);
      }
    }
  }
}
