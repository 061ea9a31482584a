/** The handlers of the profile router (routes/api/profile.js): reading
    profiles, the create-or-update upsert, account deletion and the
    experience list. */
module Profiles {

  import opened Seqs
  import opened Records
  import opened Text

  // ------------------------------------------------------------ request body

  /** The body of POST api/profile; an absent field reads as "". */
  datatype ProfileRequest = ProfileRequest(
    company: string, website: string, location: string, bio: string,
    status: string, githubusername: string, skills: string,
    youtube: string, facebook: string, twitter: string, instagram: string, linkedin: string)

  /** JavaScript truthiness of a string field. */
  predicate Truthy(s: string)
  {
    s != ""
  }

  /** `opt` carries `s`, and does so exactly when `s` is truthy. */
  predicate KeptIfTruthy(opt: Option<string>, s: string)
  {
    (opt.Some? <==> Truthy(s)) && (opt.Some? ==> opt.value == s)
  }

  function IfTruthy(s: string): (opt: Option<string>)
    ensures KeptIfTruthy(opt, s)
  {
    if Truthy(s) then Some(s) else None
  }

  // ------------------------------------------------------------ skills

  lemma TrimKeepsCommaFree(part: string)
    requires ',' !in part
    ensures ',' !in Trim(part)
  {
    var r := Trim(part);
    var i :| 0 <= i <= |part| - |r| && r == part[i..i + |r|]
             && AllTrimmable(part[..i]) && AllTrimmable(part[i + |r|..]);
    forall j | 0 <= j < |r| ensures r[j] != ',' {
      assert r[j] == part[i + j];
    }
  }

  /** `skills.split(',').map((skill) => skill.trim())`: one entry per
      comma-separated segment, each stripped of surrounding whitespace. */
  function ParseSkills(s: string): (skills: seq<string>)
    ensures |skills| == multiset(s)[','] + 1
    ensures forall k :: 0 <= k < |skills| ==> Clean(skills[k]) && ',' !in skills[k]
    ensures forall k :: 0 <= k < |skills| ==> skills[k] == Trim(Split(s)[k])
  {
    var parts := Split(s);
    forall k | 0 <= k < |parts| ensures ',' !in Trim(parts[k]) {
      TrimKeepsCommaFree(parts[k]);
    }
    seq(|parts|, k requires 0 <= k < |parts| => Trim(parts[k]))
  }

  /** A list of clean, comma-free skills survives being joined with commas
      and parsed again. */
  lemma SkillsRoundTrip(skills: seq<string>)
    requires |skills| > 0
    requires forall k :: 0 <= k < |skills| ==> Clean(skills[k]) && ',' !in skills[k]
    ensures ParseSkills(Join(skills)) == skills
  {
    SplitJoin(skills);
    forall k | 0 <= k < |skills| ensures Trim(skills[k]) == skills[k] {
      TrimClean(skills[k]);
    }
  }

  // ------------------------------------------------------------ profile fields

  /** The `profileFields` object the handler builds: the requester as owner,
      every other field only when truthy, and `social` always present. */
  datatype ProfileFields = ProfileFields(
    user: Id,
    company: Option<string>, website: Option<string>, location: Option<string>,
    bio: Option<string>, status: Option<string>, githubusername: Option<string>,
    skills: Option<seq<string>>, social: Social)

  function BuildFields(user: Id, req: ProfileRequest): (f: ProfileFields)
    ensures f.user == user
    ensures KeptIfTruthy(f.company, req.company) && KeptIfTruthy(f.website, req.website)
    ensures KeptIfTruthy(f.location, req.location) && KeptIfTruthy(f.bio, req.bio)
    ensures KeptIfTruthy(f.status, req.status) && KeptIfTruthy(f.githubusername, req.githubusername)
    ensures f.skills.Some? <==> Truthy(req.skills)
    ensures f.skills.Some? ==> f.skills.value == ParseSkills(req.skills)
    ensures KeptIfTruthy(f.social.youtube, req.youtube) && KeptIfTruthy(f.social.facebook, req.facebook)
    ensures KeptIfTruthy(f.social.twitter, req.twitter) && KeptIfTruthy(f.social.instagram, req.instagram)
    ensures KeptIfTruthy(f.social.linkedin, req.linkedin)
  {
    ProfileFields(
      user,
      IfTruthy(req.company), IfTruthy(req.website), IfTruthy(req.location),
      IfTruthy(req.bio), IfTruthy(req.status), IfTruthy(req.githubusername),
      if Truthy(req.skills) then Some(ParseSkills(req.skills)) else None,
      Social(IfTruthy(req.youtube), IfTruthy(req.facebook), IfTruthy(req.twitter),
             IfTruthy(req.instagram), IfTruthy(req.linkedin)))
  }

  /** The failures of the `status` and `skills` validators. */
  function ProfileErrors(req: ProfileRequest): (errs: seq<ErrorItem>)
    ensures FieldError("status", "Status is required") in errs <==> req.status == ""
    ensures FieldError("skills", "Skills is required") in errs <==> req.skills == ""
    ensures |errs| == 0 <==> req.status != "" && req.skills != ""
  {
    (if req.status == "" then [FieldError("status", "Status is required")] else [])
    + (if req.skills == "" then [FieldError("skills", "Skills is required")] else [])
  }

  /** A field after `$set`: the supplied value, or the old one when the key
      was not supplied. */
  predicate SetOrKept<T(==)>(after: Option<T>, supplied: Option<T>, before: Option<T>)
  {
    after == if supplied.Some? then supplied else before
  }

  /** `findOneAndUpdate({ user }, { $set: profileFields })` on profile `p`:
      each supplied top-level key is overwritten, `social` as a whole. */
  function SetFields(p: Profile, f: ProfileFields): (r: Profile)
    ensures r.user == f.user && r.social == f.social && r.experience == p.experience
    ensures SetOrKept(r.company, f.company, p.company) && SetOrKept(r.website, f.website, p.website)
    ensures SetOrKept(r.location, f.location, p.location) && SetOrKept(r.bio, f.bio, p.bio)
    ensures SetOrKept(r.status, f.status, p.status)
    ensures SetOrKept(r.githubusername, f.githubusername, p.githubusername)
    ensures r.skills == if f.skills.Some? then f.skills.value else p.skills
  {
    Profile(
      f.user,
      if f.company.Some? then f.company else p.company,
      if f.website.Some? then f.website else p.website,
      if f.location.Some? then f.location else p.location,
      if f.bio.Some? then f.bio else p.bio,
      if f.status.Some? then f.status else p.status,
      if f.githubusername.Some? then f.githubusername else p.githubusername,
      if f.skills.Some? then f.skills.value else p.skills,
      f.social,
      p.experience)
  }

  /** `new Profile(profileFields)`: exactly the supplied fields, with the
      arrays Mongoose defaults to empty. */
  function NewProfile(f: ProfileFields): (r: Profile)
    ensures r.user == f.user && r.social == f.social && r.experience == []
    ensures r.company == f.company && r.website == f.website && r.location == f.location
    ensures r.bio == f.bio && r.status == f.status && r.githubusername == f.githubusername
    ensures r.skills == if f.skills.Some? then f.skills.value else []
  {
    Profile(f.user, f.company, f.website, f.location, f.bio, f.status, f.githubusername,
            if f.skills.Some? then f.skills.value else [], f.social, [])
  }

  /** Update the owner's profile if there is one, create it otherwise. */
  function Upsert(profiles: seq<Profile>, f: ProfileFields): (r: seq<Profile>)
    ensures Contains(profiles, ProfileUser, f.user) ==>
      var k := IndexOf(profiles, ProfileUser, f.user);
      && |r| == |profiles|
      && r[k] == SetFields(profiles[k], f)
      && forall j :: 0 <= j < |r| && j != k ==> r[j] == profiles[j]
    ensures !Contains(profiles, ProfileUser, f.user) ==> r == profiles + [NewProfile(f)]
    ensures IndexOf(r, ProfileUser, f.user) < |r|
    ensures Distinct(profiles, ProfileUser) ==> Distinct(r, ProfileUser)
  {
    var k := IndexOf(profiles, ProfileUser, f.user);
    if k < |profiles| then
      var r := profiles[k := SetFields(profiles[k], f)];
      assert ProfileUser(r[k]) == f.user;
      assert Distinct(profiles, ProfileUser) ==> Distinct(r, ProfileUser) by {
        if Distinct(profiles, ProfileUser) { DistinctUpdate(profiles, k, SetFields(profiles[k], f), ProfileUser); }
      }
      r
    else
      var r := profiles + [NewProfile(f)];
      assert ProfileUser(r[|profiles|]) == f.user;
      assert Distinct(profiles, ProfileUser) ==> Distinct(r, ProfileUser) by {
        if Distinct(profiles, ProfileUser) { DistinctAppend(profiles, NewProfile(f), ProfileUser); }
      }
      r
  }

  /** Upserting the same fields twice leaves what upserting once left. */
  lemma UpsertTwice(profiles: seq<Profile>, f: ProfileFields)
    ensures Upsert(Upsert(profiles, f), f) == Upsert(profiles, f)
  {
    var once := Upsert(profiles, f);
    var k := IndexOf(profiles, ProfileUser, f.user);
    if k < |profiles| {
      IndexOfUpdate(profiles, k, SetFields(profiles[k], f), ProfileUser, f.user);
      assert SetFields(SetFields(profiles[k], f), f) == SetFields(profiles[k], f);
      assert once[k := SetFields(once[k], f)] == once;
    } else {
      IndexOfAppend(profiles, NewProfile(f), ProfileUser);
      assert SetFields(NewProfile(f), f) == NewProfile(f);
      assert once[|profiles| := SetFields(once[|profiles|], f)] == once;
    }
  }

  /** The profile the upsert answers with: the owner's profile after it. */
  function Upserted(profiles: seq<Profile>, f: ProfileFields): (p: Profile)
    ensures p in Upsert(profiles, f) && p.user == f.user
  {
    var r := Upsert(profiles, f);
    r[IndexOf(r, ProfileUser, f.user)]
  }

  /** POST api/profile as the source writes it: a failed validation sends
      400 but does not return, so the upsert still runs and writes. */
  function UpsertProfile(st: Store, requester: Id, req: ProfileRequest): (o: Outcome)
    ensures o.after == st.(profiles := Upsert(st.profiles, BuildFields(requester, req)))
    ensures ProfileErrors(req) != [] ==> o.response == Response(BadRequest, Errors(ProfileErrors(req)))
    ensures ProfileErrors(req) == [] ==>
      && o.response.status == OK && o.response.body.ProfileBody?
      && o.response.body.profile in o.after.profiles
      && o.response.body.profile.user == requester
    ensures Valid(st) ==> Valid(o.after)
  {
    var errs := ProfileErrors(req);
    var f := BuildFields(requester, req);
    var after := st.(profiles := Upsert(st.profiles, f));
    if errs != [] then Outcome(Response(BadRequest, Errors(errs)), after)
    else Outcome(Response(OK, ProfileBody(Upserted(st.profiles, f))), after)
  }

  /** A requester who already has a profile sends skills but no status: the
      handler as written answers 400 and still overwrites the stored skills.
      This is the update path, where `findOneAndUpdate` runs no schema
      validators, so the write does not depend on the profile schema. */
  lemma AsWrittenWritesInvalidProfile(requester: Id)
    ensures
      var before := Profile(requester, None, None, None, None, Some("dev"), None, ["rust"],
                            Social(None, None, None, None, None), []);
      var req := ProfileRequest("", "", "", "", "", "", "go", "", "", "", "", "");
      var o := UpsertProfile(Store([], [before], []), requester, req);
      && o.response.status == BadRequest
      && o.after.profiles == [before.(skills := ["go"])]
  {
    var req := ProfileRequest("", "", "", "", "", "", "go", "", "", "", "", "");
    assert FieldError("status", "Status is required") in ProfileErrors(req);
    SplitNoComma("go");
    TrimClean("go");
    assert ParseSkills("go") == ["go"];
  }

  /** POST api/profile as intended: a failed validation answers 400 and
      writes nothing; otherwise the upsert runs. */
  function UpsertProfileChecked(st: Store, requester: Id, req: ProfileRequest): (o: Outcome)
    ensures ProfileErrors(req) != [] ==>
      o == Outcome(Response(BadRequest, Errors(ProfileErrors(req))), st)
    ensures ProfileErrors(req) == [] ==>
      var f := BuildFields(requester, req);
      && o.after == st.(profiles := Upsert(st.profiles, f))
      && o.response == Response(OK, ProfileBody(Upserted(st.profiles, f)))
      && o.response.body.profile.user == requester
      && o.response.body.profile.status == Some(req.status)
      && o.response.body.profile.skills == ParseSkills(req.skills)
    ensures Valid(st) ==> Valid(o.after)
  {
    var errs := ProfileErrors(req);
    if errs != [] then Outcome(Response(BadRequest, Errors(errs)), st)
    else
      var f := BuildFields(requester, req);
      var k := IndexOf(st.profiles, ProfileUser, requester);
      assert IndexOf(Upsert(st.profiles, f), ProfileUser, requester) == k by {
        if k < |st.profiles| {
          IndexOfUpdate(st.profiles, k, SetFields(st.profiles[k], f), ProfileUser, requester);
        } else {
          IndexOfAppend(st.profiles, NewProfile(f), ProfileUser);
        }
      }
      Outcome(Response(OK, ProfileBody(Upserted(st.profiles, f))), st.(profiles := Upsert(st.profiles, f)))
  }

  /** Sending the same valid profile twice leaves the store as sending it once. */
  lemma UpsertProfileTwice(st: Store, requester: Id, req: ProfileRequest)
    ensures UpsertProfileChecked(UpsertProfileChecked(st, requester, req).after, requester, req).after
            == UpsertProfileChecked(st, requester, req).after
  {
    UpsertTwice(st.profiles, BuildFields(requester, req));
  }

  // ------------------------------------------------------------ reading

  /** `populate('user', ['name', 'avatar'])` */
  function Populate(users: seq<User>, p: Profile): (v: ProfileView)
    ensures v.profile == p
    ensures v.owner.Some? <==> Contains(users, UserId, p.user)
    ensures v.owner.Some? ==>
      exists u :: u in users && u.id == p.user && v.owner.value == Card(u.id, u.name, u.avatar)
  {
    match FindUser(users, p.user)
    case None => ProfileView(p, None)
    case Some(u) => ProfileView(p, Some(Card(u.id, u.name, u.avatar)))
  }

  const NoProfile := Response(BadRequest, Message("There's no profile for this user"))

  /** GET api/profile/me */
  function GetMyProfile(st: Store, requester: Id): (r: Response)
    ensures r == NoProfile <==> !Contains(st.profiles, ProfileUser, requester)
    ensures r != NoProfile ==>
      && r.status == OK && r.body.ViewBody?
      && r.body.view.profile in st.profiles
      && r.body.view.profile.user == requester
      && r.body.view == Populate(st.users, r.body.view.profile)
  {
    var k := IndexOf(st.profiles, ProfileUser, requester);
    if k == |st.profiles| then NoProfile
    else Response(OK, ViewBody(Populate(st.users, st.profiles[k])))
  }

  /** GET api/profile: every profile, populated, in store order. */
  function GetProfiles(st: Store): (r: Response)
    ensures r.status == OK && r.body.ViewsBody?
    ensures |r.body.views| == |st.profiles|
    ensures forall k :: 0 <= k < |st.profiles| ==> r.body.views[k].profile == st.profiles[k]
    ensures forall k :: 0 <= k < |st.profiles| ==> r.body.views[k] == Populate(st.users, st.profiles[k])
  {
    Response(OK, ViewsBody(seq(|st.profiles|, k requires 0 <= k < |st.profiles| => Populate(st.users, st.profiles[k]))))
  }

  const ProfileNotFound := Response(BadRequest, Message("Profile not found"))

  /** GET api/profile/user/:user_id. A malformed id gets the same 400. */
  function GetProfileByUser(st: Store, uid: IdParam): (r: Response)
    ensures r == ProfileNotFound <==> uid.Malformed? || !Contains(st.profiles, ProfileUser, uid.id)
    ensures r != ProfileNotFound ==>
      && uid.Castable? && r.status == OK && r.body.ViewBody?
      && r.body.view.profile in st.profiles
      && r.body.view.profile.user == uid.id
      && r.body.view == Populate(st.users, r.body.view.profile)
  {
    match uid
    case Malformed(_) => ProfileNotFound
    case Castable(id) =>
      var k := IndexOf(st.profiles, ProfileUser, id);
      if k == |st.profiles| then ProfileNotFound
      else Response(OK, ViewBody(Populate(st.users, st.profiles[k])))
  }

  // ------------------------------------------------------------ account deletion

  /** DELETE api/profile: removes the requester's profile and user record.
      The posts stay (removing them is an unimplemented to-do). */
  function DeleteAccount(st: Store, requester: Id): (o: Outcome)
    ensures o.response == Response(OK, Message("User " + requester + " Deleted"))
    ensures o.after.posts == st.posts
    ensures |o.after.profiles| == |st.profiles| - (if Contains(st.profiles, ProfileUser, requester) then 1 else 0)
    ensures |o.after.users| == |st.users| - (if Contains(st.users, UserId, requester) then 1 else 0)
    ensures Valid(st) ==>
      && o.after.profiles == Without(st.profiles, ProfileUser, requester)
      && o.after.users == Without(st.users, UserId, requester)
      && !Contains(o.after.profiles, ProfileUser, requester)
      && !Contains(o.after.users, UserId, requester)
      && Valid(o.after)
  {
    var profiles := RemoveFirst(st.profiles, ProfileUser, requester);
    var users := RemoveFirst(st.users, UserId, requester);
    assert Valid(st) ==> Distinct(users, UserEmail) && Distinct(profiles, ProfileUser) by {
      if Valid(st) {
        DistinctWithout(st.profiles, ProfileUser, requester);
        if Contains(st.users, UserId, requester) {
          DistinctRemoveAt(st.users, IndexOf(st.users, UserId, requester), UserEmail);
        }
      }
    }
    assert Valid(st) ==> Distinct(users, UserId) by {
      if Valid(st) { DistinctWithout(st.users, UserId, requester); }
    }
    Outcome(Response(OK, Message("User " + requester + " Deleted")), Store(users, profiles, st.posts))
  }

  // ------------------------------------------------------------ experience

  /** The body of PUT api/profile/experience; absent text fields read as "". */
  datatype ExperienceRequest = ExperienceRequest(
    title: string, company: string, location: string, from: string, to: string,
    current: bool, description: string)

  function ExperienceErrors(req: ExperienceRequest): (errs: seq<ErrorItem>)
    ensures FieldError("title", "Title is required") in errs <==> req.title == ""
    ensures FieldError("company", "Company is required") in errs <==> req.company == ""
    ensures FieldError("from", "From Date is required") in errs <==> req.from == ""
    ensures |errs| == 0 <==> req.title != "" && req.company != "" && req.from != ""
  {
    (if req.title == "" then [FieldError("title", "Title is required")] else [])
    + (if req.company == "" then [FieldError("company", "Company is required")] else [])
    + (if req.from == "" then [FieldError("from", "From Date is required")] else [])
  }

  /** PUT api/profile/experience. `newExpId` is the `_id` Mongoose gives the
      new entry. A requester without a profile makes the handler dereference
      null: 500. */
  function AddExperience(st: Store, requester: Id, req: ExperienceRequest, newExpId: Id): (o: Outcome)
    ensures ExperienceErrors(req) != [] ==>
      o == Outcome(Response(BadRequest, Errors(ExperienceErrors(req))), st)
    ensures ExperienceErrors(req) == [] && !Contains(st.profiles, ProfileUser, requester) ==> o == Failed(st)
    ensures o.response.status == OK <==>
      ExperienceErrors(req) == [] && Contains(st.profiles, ProfileUser, requester)
    ensures o.response.status == OK ==>
      var k := IndexOf(st.profiles, ProfileUser, requester);
      && |o.after.profiles| == |st.profiles|
      && var p := o.after.profiles[k];
      && |p.experience| == |st.profiles[k].experience| + 1
      && p.experience[0] == Experience(newExpId, req.title, req.company, req.location,
                                       req.from, req.to, req.current, req.description)
      && p.experience[1..] == st.profiles[k].experience
      && o.after == st.(profiles := st.profiles[k := st.profiles[k].(experience := p.experience)])
      && o.response == Response(OK, ProfileBody(p))
    ensures Valid(st) ==> Valid(o.after)
  {
    var errs := ExperienceErrors(req);
    if errs != [] then Outcome(Response(BadRequest, Errors(errs)), st)
    else
      var k := IndexOf(st.profiles, ProfileUser, requester);
      if k == |st.profiles| then Failed(st)
      else
        var e := Experience(newExpId, req.title, req.company, req.location,
                            req.from, req.to, req.current, req.description);
        var p := st.profiles[k].(experience := [e] + st.profiles[k].experience);
        assert Valid(st) ==> Distinct(st.profiles[k := p], ProfileUser) by {
          if Valid(st) { DistinctUpdate(st.profiles, k, p, ProfileUser); }
        }
        Outcome(Response(OK, ProfileBody(p)), st.(profiles := st.profiles[k := p]))
  }

  /** DELETE api/profile/experience/:exp_id: keeps exactly the entries whose
      id differs, in their order. No profile: null dereference, 500. */
  function DeleteExperience(st: Store, requester: Id, expId: Id): (o: Outcome)
    ensures !Contains(st.profiles, ProfileUser, requester) ==> o == Failed(st)
    ensures Contains(st.profiles, ProfileUser, requester) ==>
      var k := IndexOf(st.profiles, ProfileUser, requester);
      var before := st.profiles[k].experience;
      && |o.after.profiles| == |st.profiles|
      && var after := o.after.profiles[k].experience;
      && Subsequence(after, before)
      && (forall e: Experience :: multiset(after)[e] == if e.id == expId then 0 else multiset(before)[e])
      && o.after == st.(profiles := st.profiles[k := st.profiles[k].(experience := after)])
      && o.response == Response(OK, ProfileBody(o.after.profiles[k]))
    ensures Valid(st) ==> Valid(o.after)
  {
    var k := IndexOf(st.profiles, ProfileUser, requester);
    if k == |st.profiles| then Failed(st)
    else
      WithoutCounts(st.profiles[k].experience, ExperienceId, expId);
      var p := st.profiles[k].(experience := Without(st.profiles[k].experience, ExperienceId, expId));
      assert Valid(st) ==> Distinct(st.profiles[k := p], ProfileUser) by {
        if Valid(st) { DistinctUpdate(st.profiles, k, p, ProfileUser); }
      }
      Outcome(Response(OK, ProfileBody(p)), st.(profiles := st.profiles[k := p]))
  }

  /** Deleting the same experience id twice changes nothing the second time. */
  lemma DeleteExperienceTwice(st: Store, requester: Id, expId: Id)
    ensures
      var once := DeleteExperience(st, requester, expId).after;
      DeleteExperience(once, requester, expId).after == once
  {
    var k := IndexOf(st.profiles, ProfileUser, requester);
    if k < |st.profiles| {
      var p := st.profiles[k].(experience := Without(st.profiles[k].experience, ExperienceId, expId));
      IndexOfUpdate(st.profiles, k, p, ProfileUser, requester);
      WithoutIdempotent(st.profiles[k].experience, ExperienceId, expId);
      assert st.profiles[k := p][k := p] == st.profiles[k := p];
    }
  }

  /** Deleting an experience right after adding it, when its id was new to
      the profile, restores the store. */
  lemma AddThenDeleteExperience(st: Store, requester: Id, req: ExperienceRequest, newExpId: Id)
    requires AddExperience(st, requester, req, newExpId).response.status == OK
    requires !Contains(st.profiles[IndexOf(st.profiles, ProfileUser, requester)].experience, ExperienceId, newExpId)
    ensures DeleteExperience(AddExperience(st, requester, req, newExpId).after, requester, newExpId).after == st
  {
    var k := IndexOf(st.profiles, ProfileUser, requester);
    var p := st.profiles[k];
    var e := Experience(newExpId, req.title, req.company, req.location,
                        req.from, req.to, req.current, req.description);
    var p1 := p.(experience := [e] + p.experience);
    IndexOfUpdate(st.profiles, k, p1, ProfileUser, requester);
    assert Without(p1.experience, ExperienceId, newExpId) == p.experience by {
      WithoutCons(e, p.experience, ExperienceId, newExpId);
      WithoutNoMatch(p.experience, ExperienceId, newExpId);
    }
    assert p1.(experience := p.experience) == p;
    assert st.profiles[k := p1][k := p] == st.profiles;
  }
}
