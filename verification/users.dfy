/** Registration, the one handler of the users router (routes/api/users.js). */
module Users {

  import opened Seqs
  import opened Records

  /** The request body `{ name, email, password }`; an absent field reads as
      the empty string, as it does for the validators. */
  datatype Registration = Registration(name: string, email: string, password: string)

  /** The failures of the three validators, in the order they are declared. */
  function RegistrationErrors(svc: Services, req: Registration): (errs: seq<ErrorItem>)
    ensures FieldError("name", "Name is required") in errs <==> req.name == ""
    ensures FieldError("email", "Please include a valid email") in errs <==> !svc.isEmail(req.email)
    ensures FieldError("password", "Please enter a password with 6 or more characters") in errs
            <==> |req.password| < 6
    ensures |errs| == 0 <==> req.name != "" && svc.isEmail(req.email) && |req.password| >= 6
  {
    (if req.name == "" then [FieldError("name", "Name is required")] else [])
    + (if !svc.isEmail(req.email) then [FieldError("email", "Please include a valid email")] else [])
    + (if |req.password| < 6
       then [FieldError("password", "Please enter a password with 6 or more characters")]
       else [])
  }

  const UserExists := Response(BadRequest, Errors([Notice("User already exists")]))

  /** POST api/users. `newId` is the `_id` the store mints, `salt` the salt
      bcrypt generated and `avatar` the Gravatar URL computed from the e-mail.
      The stored password is the digest, never the plaintext. */
  function Register(st: Store, svc: Services, req: Registration, newId: Id, salt: string, avatar: string): (o: Outcome)
    requires !Contains(st.users, UserId, newId)
    ensures RegistrationErrors(svc, req) != [] ==>
      o == Outcome(Response(BadRequest, Errors(RegistrationErrors(svc, req))), st)
    ensures RegistrationErrors(svc, req) == [] && Contains(st.users, UserEmail, req.email) ==>
      o == Outcome(UserExists, st)
    ensures o.response.status == OK <==>
      RegistrationErrors(svc, req) == [] && !Contains(st.users, UserEmail, req.email)
    ensures o.response.status == OK ==>
      && o.after == st.(users := st.users + [User(newId, req.name, req.email, avatar, svc.hash(req.password, salt))])
      && o.response.body == TokenBody(Issue(svc, newId))
      && o.response.body.token.claims.userId == newId
      && o.response.body.token.expiresIn == 360000
    ensures Valid(st) ==> Valid(o.after)
  {
    var errs := RegistrationErrors(svc, req);
    if errs != [] then
      Outcome(Response(BadRequest, Errors(errs)), st)
    else if IndexOf(st.users, UserEmail, req.email) < |st.users| then
      Outcome(UserExists, st)
    else
      var u := User(newId, req.name, req.email, avatar, svc.hash(req.password, salt));
      assert Valid(st) ==> Distinct(st.users + [u], UserId) && Distinct(st.users + [u], UserEmail) by {
        if Valid(st) {
          DistinctAppend(st.users, u, UserId);
          DistinctAppend(st.users, u, UserEmail);
        }
      }
      Outcome(Response(OK, TokenBody(Issue(svc, newId))), st.(users := st.users + [u]))
  }

  /** Registering the same e-mail twice: the second attempt is refused and
      adds nobody. */
  lemma SecondRegistrationRefused(st: Store, svc: Services, req: Registration, id1: Id, id2: Id,
                                  salt1: string, salt2: string, avatar: string)
    requires !Contains(st.users, UserId, id1)
    requires Register(st, svc, req, id1, salt1, avatar).response.status == OK
    requires !Contains(Register(st, svc, req, id1, salt1, avatar).after.users, UserId, id2)
    ensures
      var mid := Register(st, svc, req, id1, salt1, avatar).after;
      Register(mid, svc, req, id2, salt2, avatar) == Outcome(UserExists, mid)
  {
    var mid := Register(st, svc, req, id1, salt1, avatar).after;
    assert UserEmail(mid.users[|st.users|]) == req.email;
  }
}
