/**
 * The user table kept by DbManager: one row per Telegram user id, holding the
 * profile captured on first contact and an integer authorization flag.  The
 * SQLite store is modelled as a map from tg_id to the row; the UNIQUE
 * constraint on tg_id is what makes it a map.
 */
module Users {
  import opened Wrappers

  /** The sender fields the bot stores (`ctx.from`). */
  datatype Profile = Profile(
    id: int,
    firstName: string,
    lastName: Option<string>,
    username: Option<string>,
    languageCode: Option<string>)

  /** One row of the users table, keyed by tg_id. */
  datatype User = User(
    firstName: string,
    lastName: Option<string>,
    username: Option<string>,
    languageCode: Option<string>,
    isAuthorized: int)

  type Table = map<int, User>

  /** One result row of `SELECT tg_id, first_name FROM users`. */
  datatype Row = Row(tgId: int, firstName: string)

  /** Fails closed: a sender is authorized only if its row exists and its flag is exactly 1. */
  predicate IsAuthorized(t: Table, tgId: int) {
    tgId in t && t[tgId].isAuthorized == 1
  }

  /** `INSERT OR IGNORE`: a new id gets a row with the given flag, an existing row is left as it is. */
  function Inserted(t: Table, p: Profile, isAuthorized: int): (r: Table)
    ensures r.Keys == t.Keys + {p.id}
    ensures forall id | id in t :: r[id] == t[id]
    ensures p.id !in t ==>
      r[p.id] == User(p.firstName, p.lastName, p.username, p.languageCode, isAuthorized)
  {
    if p.id in t then t
    else t[p.id := User(p.firstName, p.lastName, p.username, p.languageCode, isAuthorized)]
  }

  /** `UPDATE users SET is_authorized = ? WHERE tg_id = ?`: only the flag of that one row changes; a missing id changes nothing. */
  function Updated(t: Table, tgId: int, isAuthorized: int): (r: Table)
    ensures r.Keys == t.Keys
    ensures forall id | id in t && id != tgId :: r[id] == t[id]
    ensures tgId in t ==> r[tgId] == t[tgId].(isAuthorized := isAuthorized)
  {
    if tgId in t then t[tgId := t[tgId].(isAuthorized := isAuthorized)] else t
  }

  /** The ids of a result set. */
  function Ids(rows: seq<Row>): set<int> {
    set i | 0 <= i < |rows| :: rows[i].tgId
  }

  predicate DistinctIds(rows: seq<Row>) {
    forall i, j | 0 <= i < j < |rows| :: rows[i].tgId != rows[j].tgId
  }

  /** `rows` is a full result of getUserDetails on `t`: every row of the table once, in some order. */
  predicate Lists(rows: seq<Row>, t: Table) {
    && DistinctIds(rows)
    && Ids(rows) == t.Keys
    && (forall i | 0 <= i < |rows| :: rows[i].tgId in t && rows[i].firstName == t[rows[i].tgId].firstName)
  }

  /** Inserting with flag 0, the default of addUser, never makes anybody authorized or unauthorized. */
  lemma InsertNeverGrants(t: Table, p: Profile, tgId: int)
    ensures IsAuthorized(Inserted(t, p, 0), tgId) <==> IsAuthorized(t, tgId)
  {
  }

  /** A second insert for the same id is ignored, whatever profile it carries. */
  lemma InsertIgnoresRepeat(t: Table, p: Profile, q: Profile, f: int, g: int)
    requires p.id == q.id
    ensures Inserted(Inserted(t, p, f), q, g) == Inserted(t, p, f)
  {
  }

  /** Setting the flag to 1 authorizes exactly that id when its row exists, and no other id changes. */
  lemma UpdateAuthorizesOne(t: Table, tgId: int, other: int)
    ensures IsAuthorized(Updated(t, tgId, 1), other) <==>
      (if other == tgId then tgId in t else IsAuthorized(t, other))
  {
  }

  /** Appending a row adds exactly its id. */
  lemma IdsAppend(rows: seq<Row>, r: Row)
    ensures Ids(rows + [r]) == Ids(rows) + {r.tgId}
  {
    var next := rows + [r];
    forall x | x in Ids(next) ensures x in Ids(rows) + {r.tgId} {
      var i :| 0 <= i < |next| && next[i].tgId == x;
      if i < |rows| { assert rows[i].tgId == x; }
    }
    forall x | x in Ids(rows) ensures x in Ids(next) {
      var i :| 0 <= i < |rows| && rows[i].tgId == x;
      assert next[i].tgId == x;
    }
    assert next[|rows|].tgId == r.tgId;
  }

  lemma {:induction false} DistinctIdsCount(rows: seq<Row>)
    requires DistinctIds(rows)
    ensures |Ids(rows)| == |rows|
    decreases |rows|
  {
    if rows != [] {
      var init := rows[..|rows| - 1];
      var last := rows[|rows| - 1].tgId;
      DistinctIdsCount(init);
      assert rows == init + [rows[|rows| - 1]];
      IdsAppend(init, rows[|rows| - 1]);
      assert last !in Ids(init);
    }
  }

  /** A full result of getUserDetails has exactly one row per table entry. */
  lemma ListsLength(rows: seq<Row>, t: Table)
    requires Lists(rows, t)
    ensures |rows| == |t|
  {
    DistinctIdsCount(rows);
    assert |t.Keys| == |t|;
  }

  /** Set extensionality, stated so that a non-empty set of ids is known to have a member. */
  lemma NoMemberMeansEmpty(s: set<int>)
    ensures (forall x :: x !in s) ==> s == {}
  {
    if forall x :: x !in s {
      assert forall x :: x in s <==> x in {};
    }
  }

  /** The users table DbManager keeps; every query and update is one atomic step here. */
  class UserTable {
    var rows: Table

    /** Opening the database file: the table holds whatever rows the file already has. */
    constructor (existing: Table)
      ensures rows == existing
    {
      rows := existing;
    }

    /** `addUser(user, isAuthorized = 0)`. */
    method AddUser(user: Profile, isAuthorized: int := 0)
      modifies this
      ensures rows == Inserted(old(rows), user, isAuthorized)
    {
      if user.id !in rows {
        rows := rows[user.id := User(user.firstName, user.lastName, user.username, user.languageCode, isAuthorized)];
      }
    }

    method SetAuthorization(tgId: int, isAuthorized: int)
      modifies this
      ensures rows == Updated(old(rows), tgId, isAuthorized)
    {
      if tgId in rows {
        rows := rows[tgId := rows[tgId].(isAuthorized := isAuthorized)];
      }
    }

    method AuthorizeUser(tgId: int)
      modifies this
      ensures rows == Updated(old(rows), tgId, 1)
      ensures forall id :: IsAuthorized(rows, id) <==> (if id == tgId then tgId in rows else IsAuthorized(old(rows), id))
    {
      SetAuthorization(tgId, 1);
    }

    /** `isUserAuthorized`: a missing row answers false. */
    method IsUserAuthorized(tgId: int) returns (authorized: bool)
      ensures authorized <==> tgId in rows && rows[tgId].isAuthorized == 1
    {
      if tgId in rows {
        authorized := rows[tgId].isAuthorized == 1;
      } else {
        authorized := false;
      }
    }

    /** `getUserDetails`: every row's tg_id and first_name, authorized or not, in no particular order. */
    method GetUserDetails() returns (details: seq<Row>)
      ensures Lists(details, rows)
    {
      details := [];
      var remaining := rows.Keys;
      while remaining != {}
        invariant remaining <= rows.Keys
        invariant DistinctIds(details)
        invariant Ids(details) == rows.Keys - remaining
        invariant forall i | 0 <= i < |details| ::
          details[i].tgId in rows && details[i].firstName == rows[details[i].tgId].firstName
        decreases remaining
      {
        NoMemberMeansEmpty(remaining);
        var id :| id in remaining;
        IdsAppend(details, Row(id, rows[id].firstName));
        details := details + [Row(id, rows[id].firstName)];
        remaining := remaining - {id};
      }
    }
  }
}
