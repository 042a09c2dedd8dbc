/** `SessionAuth` (0x02): the in-memory session table, a map from session id to
    user id, with create, lookup and destroy. The table is a class-level dict in
    the source; here it is the one field of a `SessionAuth` object that every
    caller shares. uuid4's fresh id comes in as a parameter. */
module Session {
  import opened Values
  import Auth

  /** What a lookup of `sessionId` in `table` answers: the mapped user id, or None
      for a None or non-str id or an unknown key. */
  function LookupSession(table: map<string, string>, sessionId: Value): (r: Value)
    ensures r.NoneValue? || r.Str?
    ensures r.Str? <==> sessionId.Str? && sessionId.text in table
    ensures r.Str? ==> r.text == table[sessionId.text]
  {
    if sessionId.NoneValue? then NoneValue
    else if !sessionId.Str? then NoneValue
    else if sessionId.text in table then Str(table[sessionId.text])
    else NoneValue
  }

  class SessionAuth {
    var userIdBySessionId: map<string, string>

    /** The table starts empty. */
    constructor ()
      ensures userIdBySessionId == map[]
    {
      userIdBySessionId := map[];
    }

    /** `create_session`: a str user id gets the fresh id as a new key; anything
        else is refused with None and the table is left alone. */
    method CreateSession(userId: Value, freshId: string) returns (sessionId: Value)
      requires userId.Str? ==> freshId !in userIdBySessionId
      modifies this
      ensures userId.Str? ==> sessionId == Str(freshId)
      ensures userId.Str? ==> userIdBySessionId == old(userIdBySessionId)[freshId := userId.text]
      ensures userId.Str? ==> |userIdBySessionId| == |old(userIdBySessionId)| + 1
      ensures !userId.Str? ==> sessionId == NoneValue && userIdBySessionId == old(userIdBySessionId)
    {
      if userId.NoneValue? {
        return NoneValue;
      } else if !userId.Str? {
        return NoneValue;
      }
      userIdBySessionId := userIdBySessionId[freshId := userId.text];
      sessionId := Str(freshId);
    }

    /** `user_id_for_session_id`: a read-only lookup. */
    method UserIdForSessionId(sessionId: Value) returns (userId: Value)
      ensures userId == LookupSession(userIdBySessionId, sessionId)
    {
      if sessionId.NoneValue? {
        return NoneValue;
      }
      if !sessionId.Str? {
        return NoneValue;
      }
      if sessionId.text in userIdBySessionId {
        userId := Str(userIdBySessionId[sessionId.text]);
      } else {
        userId := NoneValue;
      }
    }

    /** `current_user`: the user that `User.get` (an oracle here) returns for the
        id the cookie's session maps to. */
    method CurrentUser<U>(request: Option<Auth.Request>, cookieName: string, userGet: Value -> Option<U>)
      returns (user: Option<U>)
      ensures user == userGet(LookupSession(userIdBySessionId, Auth.SessionCookie(request, cookieName)))
    {
      var sessionId := Auth.SessionCookie(request, cookieName);
      var userId := UserIdForSessionId(sessionId);
      user := userGet(userId);
    }

    /** `destroy_session`: removes exactly the cookie's session when it is live, and
        otherwise answers False and changes nothing. */
    method DestroySession(request: Option<Auth.Request>, cookieName: string) returns (destroyed: bool)
      modifies this
      ensures destroyed <==>
                && request.Some? && cookieName in request.value.cookies
                && request.value.cookies[cookieName] in old(userIdBySessionId)
      ensures destroyed ==>
                userIdBySessionId == old(userIdBySessionId) - {request.value.cookies[cookieName]}
      ensures !destroyed ==> userIdBySessionId == old(userIdBySessionId)
    {
      if request.None? {
        return false;
      }
      var cookie := Auth.SessionCookie(request, cookieName);
      if cookie.NoneValue? {
        return false;
      }
      var userId := UserIdForSessionId(cookie);
      if userId.NoneValue? {
        return false;
      }
      userIdBySessionId := userIdBySessionId - {cookie.text};
      destroyed := true;
    }
  }

  /** One user may own several sessions: two creates give two keys mapped to the
      same user, each resolvable and destroyable on its own. */
  method TwoSessionsForOneUser(user: string, first: string, second: string, cookieName: string)
    returns (store: SessionAuth)
    requires first != second
    ensures store.userIdBySessionId == map[second := user]
  {
    store := new SessionAuth();
    var s1 := store.CreateSession(Str(user), first);
    var s2 := store.CreateSession(Str(user), second);
    assert s1 == Str(first) && s2 == Str(second);
    var u1 := store.UserIdForSessionId(s1);
    var u2 := store.UserIdForSessionId(s2);
    assert u1 == Str(user) && u2 == Str(user);
    var logout := Some(Auth.Request(map[], map[cookieName := first]));
    var destroyed := store.DestroySession(logout, cookieName);
    assert destroyed;
    var gone := store.UserIdForSessionId(s1);
    var kept := store.UserIdForSessionId(s2);
    assert gone == NoneValue && kept == Str(user);
    var again := store.DestroySession(logout, cookieName);
    assert !again;
  }
}
