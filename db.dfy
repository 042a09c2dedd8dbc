/** `DB` (0x03): the users table behind the authentication service, as an
    in-memory sequence of rows in insertion order. A row maps each column name
    to its value; the column set is fixed when the table is created. */
module Db {
  import opened Values

  type Row = map<string, Value>

  /** The exceptions the source raises. */
  datatype DbError = InvalidRequestError | NoResultFound | ValueError

  datatype Result<T> = Ok(value: T) | Err(error: DbError)

  /** The columns `add_user` writes; the table has at least these. */
  const RequiredColumns: set<string> := {"id", "email", "hashed_password"}

  /** `filter_by(**filters)`: the row has every filter column with the filter's value,
      that is, the filters are a sub-map of the row: writing them over it changes nothing. */
  predicate Matches(row: Row, filters: map<string, Value>): (b: bool)
    ensures b <==> row + filters == row
  {
    if forall k :: k in filters ==> k in row && row[k] == filters[k] then
      assert forall k :: k in (row + filters) <==> k in row;
      assert forall k :: k in row ==> (row + filters)[k] == row[k];
      true
    else
      var k :| k in filters && !(k in row && row[k] == filters[k]);
      assert k in row + filters && (row + filters)[k] == filters[k];
      false
  }

  /** The position of the first matching row, as `query(...).first()` finds it. */
  function FirstMatch(rows: seq<Row>, filters: map<string, Value>): (r: Option<nat>)
    ensures r.Some? ==> r.value < |rows| && Matches(rows[r.value], filters)
    ensures r.Some? ==> forall j :: 0 <= j < r.value ==> !Matches(rows[j], filters)
    ensures r.None? ==> forall j :: 0 <= j < |rows| ==> !Matches(rows[j], filters)
    decreases |rows|
  {
    if rows == [] then None
    else if Matches(rows[0], filters) then Some(0)
    else match FirstMatch(rows[1..], filters)
      case None => None
      case Some(i) => Some(i + 1)
  }

  /** The `setattr` loop of `update_user`: each given attribute takes its new value. */
  method SetAttributes(row: Row, changes: map<string, Value>) returns (updated: Row)
    ensures updated == row + changes
  {
    updated := row;
    var pending := changes.Keys;
    while pending != {}
      invariant pending <= changes.Keys
      invariant updated.Keys == row.Keys + (changes.Keys - pending)
      invariant forall k :: k in changes.Keys - pending ==> updated[k] == changes[k]
      invariant forall k :: k in row && k !in changes.Keys - pending ==> updated[k] == row[k]
      decreases pending
    {
      var key :| key in pending;
      updated := updated[key := changes[key]];
      pending := pending - {key};
    }
    assert updated.Keys == (row + changes).Keys;
    assert forall k :: k in updated ==> updated[k] == (row + changes)[k];
  }

  class DB {
    const columns: set<string>
    var users: seq<Row>

    ghost predicate Valid()
      reads this
    {
      RequiredColumns <= columns && forall i :: 0 <= i < |users| ==> users[i].Keys == columns
    }

    /** `__init__`: the table is dropped and created again, so it starts empty. */
    constructor (columns: set<string>)
      requires RequiredColumns <= columns
      ensures Valid() && this.columns == columns && users == []
    {
      this.columns := columns;
      users := [];
    }

    /** `add_user`: appends one row holding the email and the hashed password, with
        the id the database assigns (a parameter here) and None elsewhere. */
    method AddUser(email: string, hashedPassword: string, newId: int) returns (user: Row)
      requires Valid()
      requires forall i :: 0 <= i < |users| ==> users[i]["id"] != Int(newId)
      modifies this
      ensures Valid()
      ensures users == old(users) + [user]
      ensures user.Keys == columns
      ensures user["id"] == Int(newId) && user["email"] == Str(email)
      ensures user["hashed_password"] == Str(hashedPassword)
      ensures forall k :: k in columns - RequiredColumns ==> user[k] == NoneValue
    {
      user := map k | k in columns ::
        if k == "id" then Int(newId)
        else if k == "email" then Str(email)
        else if k == "hashed_password" then Str(hashedPassword)
        else NoneValue;
      users := users + [user];
    }

    /** The validation and lookup of `find_user_by`, giving the row's position. */
    function FindIndexBy(filters: map<string, Value>): (r: Result<nat>)
      reads this
      ensures r == Err(InvalidRequestError) <==> |filters| == 0 || !(filters.Keys <= columns)
      ensures r.Ok? <==> |filters| > 0 && filters.Keys <= columns && FirstMatch(users, filters).Some?
      ensures r.Ok? ==> r.value < |users| && FirstMatch(users, filters) == Some(r.value)
      ensures r.Err? ==> r.error != ValueError
    {
      if |filters| == 0 then Err(InvalidRequestError)
      else if !(filters.Keys <= columns) then Err(InvalidRequestError)
      else match FirstMatch(users, filters)
        case None => Err(NoResultFound)
        case Some(i) => Ok(i)
    }

    /** `find_user_by`: no filters, or a filter that is not a column, raise
        InvalidRequestError before any query; otherwise the first matching row, or
        NoResultFound. */
    function FindUserBy(filters: map<string, Value>): (r: Result<Row>)
      reads this
      ensures |filters| == 0 ==> r == Err(InvalidRequestError)
      ensures !(filters.Keys <= columns) ==> r == Err(InvalidRequestError)
      ensures r == Err(InvalidRequestError) ==> |filters| == 0 || !(filters.Keys <= columns)
      ensures r.Ok? ==>
                && |filters| > 0 && filters.Keys <= columns
                && (exists i :: 0 <= i < |users| && users[i] == r.value && Matches(users[i], filters)
                     && forall j :: 0 <= j < i ==> !Matches(users[j], filters))
      ensures r == Err(NoResultFound) <==>
                |filters| > 0 && filters.Keys <= columns && forall i :: 0 <= i < |users| ==> !Matches(users[i], filters)
      ensures r.Ok? || r == Err(InvalidRequestError) || r == Err(NoResultFound)
    {
      match FindIndexBy(filters)
      case Ok(i) => Ok(users[i])
      case Err(e) => Err(e)
    }

    /** `update_user`: the user is found by id (NoResultFound otherwise), every key is
        checked to be a column before anything is set (ValueError otherwise), and
        then that row takes the given values. */
    method UpdateUser(userId: Value, changes: map<string, Value>) returns (r: Result<()>)
      requires Valid()
      modifies this
      ensures Valid()
      ensures FirstMatch(old(users), map["id" := userId]).None? ==>
                r == Err(NoResultFound) && users == old(users)
      ensures FirstMatch(old(users), map["id" := userId]).Some? && !(changes.Keys <= columns) ==>
                r == Err(ValueError) && users == old(users)
      ensures FirstMatch(old(users), map["id" := userId]).Some? && changes.Keys <= columns ==>
                var i := FirstMatch(old(users), map["id" := userId]).value;
                r == Ok(()) && users == old(users)[i := old(users)[i] + changes]
    {
      var found := FindIndexBy(map["id" := userId]);
      if found.Err? {
        return Err(found.error);
      }
      var index := found.value;
      if !(changes.Keys <= columns) {
        return Err(ValueError);
      }
      var row := SetAttributes(users[index], changes);
      assert row.Keys == columns;
      users := users[index := row];
      assert forall i :: 0 <= i < |users| ==> users[i].Keys == columns;
      r := Ok(());
    }
  }
}
