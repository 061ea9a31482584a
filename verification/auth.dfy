/** The auth router (routes/api/auth.js): the current user's record and
    login. */
module Auth {

  import opened Seqs
  import opened Records
  import Users

  /** GET api/auth: the requester's user record without its password. A
      requester whose record is gone gets `null` with status 200. */
  function CurrentUser(st: Store, requester: Id): (r: Response)
    ensures r.status == OK && r.body.UserBody?
    ensures r.body.user.Some? <==> Contains(st.users, UserId, requester)
    ensures r.body.user.Some? ==>
      exists u :: u in st.users && u.id == requester
                  && r.body.user.value == PublicUser(u.id, u.name, u.email, u.avatar)
  {
    match FindUser(st.users, requester)
    case None => Response(OK, UserBody(None))
    case Some(u) => Response(OK, UserBody(Some(PublicUser(u.id, u.name, u.email, u.avatar))))
  }

  /** The failures of login's two validators, in declaration order. The
      password only has to be present (`exists()`), not non-empty. */
  function LoginErrors(svc: Services, email: string, password: Option<string>): (errs: seq<ErrorItem>)
    ensures FieldError("email", "Please include a valid email") in errs <==> !svc.isEmail(email)
    ensures FieldError("password", "Password is required") in errs <==> password.None?
    ensures |errs| == 0 <==> svc.isEmail(email) && password.Some?
  {
    (if !svc.isEmail(email) then [FieldError("email", "Please include a valid email")] else [])
    + (if password.None? then [FieldError("password", "Password is required")] else [])
  }

  /** The one answer for every credential failure. */
  const InvalidCredentials := Response(BadRequest, Errors([Notice("Credentials are invalid")]))

  /** POST api/auth. Login reads the users but writes nothing. */
  function Login(st: Store, svc: Services, email: string, password: Option<string>): (o: Outcome)
    ensures o.after == st
    ensures LoginErrors(svc, email, password) != [] ==>
      o.response == Response(BadRequest, Errors(LoginErrors(svc, email, password)))
    ensures LoginErrors(svc, email, password) == [] && !Contains(st.users, UserEmail, email) ==>
      o.response == InvalidCredentials
    ensures (LoginErrors(svc, email, password) == [] && Contains(st.users, UserEmail, email)
             && !svc.compare(password.value, st.users[IndexOf(st.users, UserEmail, email)].password)) ==>
      o.response == InvalidCredentials
    ensures o.response.status == OK <==>
      && LoginErrors(svc, email, password) == []
      && Contains(st.users, UserEmail, email)
      && svc.compare(password.value, st.users[IndexOf(st.users, UserEmail, email)].password)
    ensures o.response.status == OK ==>
      var u := st.users[IndexOf(st.users, UserEmail, email)];
      && u.email == email
      && o.response.body == TokenBody(Issue(svc, u.id))
  {
    var errs := LoginErrors(svc, email, password);
    if errs != [] then
      Outcome(Response(BadRequest, Errors(errs)), st)
    else
      var i := IndexOf(st.users, UserEmail, email);
      if i == |st.users| then Outcome(InvalidCredentials, st)
      else if !svc.compare(password.value, st.users[i].password) then Outcome(InvalidCredentials, st)
      else Outcome(Response(OK, TokenBody(Issue(svc, st.users[i].id))), st)
  }

  /** An unknown e-mail and a wrong password cannot be told apart: the two
      stores give the same response. */
  lemma FailuresIndistinguishable(st1: Store, st2: Store, svc: Services, email: string, password: string)
    requires svc.isEmail(email)
    requires !Contains(st1.users, UserEmail, email)
    requires Contains(st2.users, UserEmail, email)
    requires !svc.compare(password, st2.users[IndexOf(st2.users, UserEmail, email)].password)
    ensures Login(st1, svc, email, Some(password)).response == Login(st2, svc, email, Some(password)).response
    ensures Login(st1, svc, email, Some(password)).response == InvalidCredentials
  {
  }

  /** With a hash that verifies its own plaintext, a freshly registered user
      can log in with the same credentials and gets a token for the new id. */
  lemma RegisterThenLogin(st: Store, svc: Services, req: Users.Registration, newId: Id, salt: string, avatar: string)
    requires HashVerifies(svc)
    requires !Contains(st.users, UserId, newId)
    requires Users.Register(st, svc, req, newId, salt, avatar).response.status == OK
    ensures Login(Users.Register(st, svc, req, newId, salt, avatar).after, svc, req.email, Some(req.password)).response
            == Response(OK, TokenBody(Issue(svc, newId)))
  {
    var mid := Users.Register(st, svc, req, newId, salt, avatar).after;
    IndexOfAppend(st.users, mid.users[|st.users|], UserEmail);
    assert svc.compare(req.password, svc.hash(req.password, salt));
  }
}
