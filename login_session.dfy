/**
 * The imperative side of php/login.php: the `$authenticated` flag set step
 * by step, and the session that is started, given a new id and then bound
 * to the user, in that order. The session id generator is modelled by a
 * counter: all that matters is that a regenerated id was never used before.
 */
module LoginSession {
  import opened Wrappers
  import opened Text
  import opened Login

  type SessionId = nat

  /** A value stored in `$_SESSION`. */
  datatype SessionValue = Str(s: string) | Int(n: int)

  /** The session operations, in the order they happened. */
  datatype SessionEvent = Started | Regenerated(newId: SessionId) | Wrote(key: string)

  /** Every write in `events` is preceded by a regeneration of the id. */
  ghost predicate RegeneratedBeforeWrites(events: seq<SessionEvent>)
  {
    forall j :: 0 <= j < |events| && events[j].Wrote? ==>
      exists i :: 0 <= i < j && events[i].Regenerated?
  }

  /** The keys written by `events`. */
  function WrittenKeys(events: seq<SessionEvent>): (keys: set<string>)
    ensures forall k :: k in keys <==> exists j :: 0 <= j < |events| && events[j] == Wrote(k)
  {
    if events == [] then {}
    else
      var rest := WrittenKeys(events[1..]);
      assert forall j :: 1 <= j < |events| ==> events[j] == events[1..][j - 1];
      (if events[0].Wrote? then {events[0].key} else {}) + rest
  }

  /**
   * The session operations of the success path: a start when the session
   * was not active, the regeneration to `newId`, then the two writes.
   */
  function BindTrace(wasActive: bool, newId: SessionId): seq<SessionEvent>
  {
    (if wasActive then [] else [Started]) + [Regenerated(newId), Wrote("usuario"), Wrote("user_id")]
  }

  /**
   * The success path regenerates the id before it writes any key, and it
   * writes `usuario` and `user_id` and nothing else.
   */
  lemma BindTraceIsSafe(wasActive: bool, newId: SessionId)
    ensures RegeneratedBeforeWrites(BindTrace(wasActive, newId))
    ensures WrittenKeys(BindTrace(wasActive, newId)) == {"usuario", "user_id"}
  {
    var t := BindTrace(wasActive, newId);
    var r := if wasActive then 0 else 1;
    assert t[r] == Regenerated(newId);
    forall j | 0 <= j < |t| && t[j].Wrote? ensures exists i :: 0 <= i < j && t[i].Regenerated? {
      assert 0 <= r < j;
    }
    assert t[r + 1] == Wrote("usuario") && t[r + 2] == Wrote("user_id");
    forall k | k in WrittenKeys(t) ensures k == "usuario" || k == "user_id" {
      var j :| 0 <= j < |t| && t[j] == Wrote(k);
    }
  }

  class Session {
    /** session_status() == PHP_SESSION_ACTIVE */
    var active: bool
    /** the current session id */
    var id: SessionId
    /** `$_SESSION` */
    var data: map<string, SessionValue>
    /** the next id the generator hands out */
    var nextId: SessionId
    /** every id this session store has used */
    ghost var known: set<SessionId>
    /** the session operations performed so far */
    ghost var events: seq<SessionEvent>

    ghost predicate Valid()
      reads this
    {
      id in known && forall k :: k in known ==> k < nextId
    }

    /** A session store whose current (possibly client-chosen) id is `initialId`. */
    constructor (initialId: SessionId, isActive: bool, initialData: map<string, SessionValue>)
      ensures Valid()
      ensures active == isActive && id == initialId && data == initialData
      ensures known == {initialId} && events == []
    {
      active := isActive;
      id := initialId;
      data := initialData;
      nextId := initialId + 1;
      known := {initialId};
      events := [];
    }

    /** session_start(): the session becomes active, id and data are kept. */
    method Start()
      requires Valid()
      modifies this
      ensures Valid()
      ensures active && id == old(id) && data == old(data) && nextId == old(nextId)
      ensures known == old(known) && events == old(events) + [Started]
    {
      active := true;
      events := events + [Started];
    }

    /**
     * session_regenerate_id(true): the session gets an id never used before;
     * its data moves with it.
     */
    method RegenerateId()
      requires Valid() && active
      modifies this
      ensures Valid()
      ensures active && data == old(data)
      ensures id !in old(known) && id != old(id)
      ensures known == old(known) + {id}
      ensures events == old(events) + [Regenerated(id)]
    {
      id := nextId;
      nextId := nextId + 1;
      known := known + {id};
      events := events + [Regenerated(id)];
    }

    /** `$_SESSION[key] = value`. */
    method Put(key: string, value: SessionValue)
      requires Valid() && active
      modifies this
      ensures Valid()
      ensures active && id == old(id) && nextId == old(nextId) && known == old(known)
      ensures data == old(data)[key := value]
      ensures events == old(events) + [Wrote(key)]
    {
      data := data[key := value];
      events := events + [Wrote(key)];
    }

    /**
     * The success path: start the session if it is not active, regenerate
     * the id, then bind `usuario` and `user_id`. The id afterwards was never
     * used before, the only keys written are those two, and no key is
     * written before the id is regenerated.
     */
    method BindUser(usuario: string, userId: UserId)
      requires Valid()
      modifies this
      ensures Valid() && active
      ensures id !in old(known) && id != old(id) && known == old(known) + {id}
      ensures data == old(data)["usuario" := Str(usuario)]["user_id" := Int(userId)]
      ensures events == old(events) + BindTrace(old(active), id)
    {
      if !active {
        Start();
      }
      RegenerateId();
      Put("usuario", Str(usuario));
      Put("user_id", Int(userId));
    }
  }

  /**
   * The password check of php/login.php step by step: the `$authenticated`
   * flag starts false and is set by the branch the classifier selects; in
   * the legacy branch password_verify is tried only when the digest did
   * not match.
   */
  method CheckPassword(password: string, stored: string, crypto: Crypto) returns (authenticated: bool)
    ensures IsModernHash(stored) ==>
      (authenticated <==> crypto.passwordVerify(password, stored))
    ensures !IsModernHash(stored) ==>
      (authenticated <==> crypto.sha512Hex(password) == stored || crypto.passwordVerify(password, stored))
    ensures authenticated == PasswordMatches(password, stored, crypto)
  {
    authenticated := false;
    var modern := StrPos(stored, "$2y$") == Some(0)
                  || StrPos(stored, "$2a$") == Some(0)
                  || StrIPos(stored, "argon2").Some?;
    if modern {
      if crypto.passwordVerify(password, stored) {
        authenticated := true;
      }
    } else {
      if crypto.sha512Hex(password) == stored {
        authenticated := true;
      }
      if !authenticated && crypto.passwordVerify(password, stored) {
        authenticated := true;
      }
    }
  }

  /**
   * The script for one request: returns the redirect target. The session
   * is touched only on success, and then as BindUser says; every failure
   * leaves it exactly as it was.
   */
  method HandleLogin(req: Request, store: string -> Lookup, crypto: Crypto, session: Session)
    returns (location: Redirect)
    requires session.Valid()
    modifies session
    ensures session.Valid()
    ensures location == Location(Authenticate(req, store, crypto).decision)
    ensures Authenticate(req, store, crypto).decision.Rejected? ==>
      session.data == old(session.data) && session.id == old(session.id)
      && session.active == old(session.active) && session.events == old(session.events)
      && session.known == old(session.known)
    ensures var d := Authenticate(req, store, crypto).decision;
      d.Accepted? ==>
        session.active && session.id !in old(session.known)
        && session.known == old(session.known) + {session.id}
        && session.data == old(session.data)["usuario" := Str(d.usuario)]["user_id" := Int(d.userId)]
        && session.events == old(session.events) + BindTrace(old(session.active), session.id)
  {
    if req.requestMethod != "POST" {
      return LoginPage;
    }
    var usuario := Trim(PostField(req, "usuario"), PhpTrimChars);
    var password := PostField(req, "nueva_contrasena");
    if usuario == "" || password == "" {
      return ErrorPage;
    }
    var lookup := store(usuario);
    if lookup.PrepareFailed? || lookup.ExecuteFailed? {
      return ErrorPage;
    }
    if lookup.row.None? {
      return ErrorPage;
    }
    var row := lookup.row.value;
    var authenticated := CheckPassword(password, row.contrasena, crypto);
    if authenticated {
      session.BindUser(usuario, row.id);
      return WelcomePage;
    } else {
      return ErrorPage;
    }
  }
}
