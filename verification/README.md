# Route handlers of a MERN social-network backend, modelled in Dafny

The backend is an Express application with four routers: `users` for registration,
`auth` for login and the current user, `posts` for posts, likes and comments,
and `profile` for developer profiles and their experience lists. This project
models the decision and data logic of every handler in those routers. Each
handler becomes a pure function. It takes the request, the authenticated
requester id and the current store, and gives back the HTTP status, the JSON
body and the new store (`Records.Outcome`). Read-only handlers give back only
the response.

The three MongoDB collections become three sequences of immutable records
(`Records.Store`). They are kept in natural order, because `findOne` and
`findById` return the first match in that order. `Records.Valid` is the
invariant the store and the handlers keep between them:

- user ids are unique;
- e-mails are unique;
- post ids are unique;
- there is at most one profile per user.

Every mutating handler is proved to preserve it.

Files:

- `seqs.dfy` (`Seqs`): generic first-match lookup (`IndexOf`), filtering
  (`Without`), `splice` (`RemoveAt`, `RemoveFirst`) and the lemmas about them.
- `text.dfy` (`Text`): JavaScript `String.prototype.trim` and `split(",")`.
- `records.dfy` (`Records`): documents, the store, response bodies, and
  the external services.
- `users.dfy`, `auth.dfy`, `posts.dfy`, `profile.dfy`: one module per router.

Hashing, password comparison, token signing and e-mail syntax are fields of a
`Records.Services` value. The handlers call them but their internals are not
modelled. The signing secret is assumed to be already applied inside `sign`.
The requester id is an input, standing for what the authentication middleware
attaches. Ids the database mints, salts, creation times and Gravatar URLs are
also inputs.

A route id that Mongoose must cast to an ObjectId is a `Records.IdParam`. It
is either `Castable(id)` or `Malformed(raw)`. `Malformed` stands for the cast
error whose `kind` is `"ObjectId"`. A handler whose catch maps that error
answers 404 or 400. A handler whose catch does not map it answers 500.

## Model

| member | source | states |
|---|---|---|
| Posts.CreatePost | routes/api/posts.js:11-38 | Empty text gives 400 "Text is required" and an unchanged store. A requester without a user record gives 500. Otherwise exactly one post is appended. It has the fresh id, `user` = requester, the given text, the author's name and avatar, no likes, no comments and the given date. The store invariant is kept. |
| Posts.SortNewestFirst | routes/api/posts.js:45 | The result is a permutation of the posts with dates non-increasing. |
| Posts.GetPosts | routes/api/posts.js:43-51 | Always 200. The body holds every stored post exactly as often as it is stored, newest first. |
| Posts.GetPost | routes/api/posts.js:56-70 | 200 with a stored post carrying the asked id exactly when the id casts and such a post exists. Otherwise 404 "Post not found", including for a malformed id. |
| Posts.DeletePost | routes/api/posts.js:75-102 | 404 for a malformed or unknown id. 401 when the post's `user` is not the requester. 401 and 404 leave the store unchanged. On 200 exactly that post is cut out and nothing else changes. On a valid store this equals filtering out the id, and the invariant is kept. |
| Posts.Toggle | routes/api/posts.js:111-124 | The requester has liked after the toggle iff they had not liked before. On unlike, every like of the requester goes, and the others keep their multiplicity and relative order. On like, one `{user: requester}` is prepended. |
| Posts.ToggleTwice | routes/api/posts.js:111-124 | From likes without the requester, toggling twice restores the like list. |
| Posts.ToggleLike | routes/api/posts.js:107-129 | A malformed or unknown post id gives 500 and an unchanged store. Otherwise the found post's likes are toggled, the new list is the 200 body, and only that post changes. |
| Posts.ToggleLikeTwice | routes/api/posts.js:107-129 | Toggling twice on a post the requester had not liked restores the whole store. |
| Posts.AddComment | routes/api/posts.js:134-173 | Empty text gives 400. Then a malformed id gives 404. Then a missing user record gives 500. Then a missing post gives 404. All four leave the store unchanged. Otherwise the list grows by one. Its head is the new comment with the requester id, the author's name and avatar and the text, and the rest is the old list. |
| Posts.DeleteCommentAsWritten | routes/api/posts.js:178-221 | 404 for a malformed or missing post. 404 "Comment not found" when no comment has the id. 401 exactly when that comment's author is not the requester. 200 exactly when every guard passes, and then the list shrinks by one. The invariant is kept. On 200 the entry removed is the first comment written by the requester. Its position is at or before the requested comment's. |
| Posts.AsWrittenDeletesOtherComment | routes/api/posts.js:205-209 | Concrete case: the requester owns comments a and b and deletes b. The handler as written keeps b and removes a. |
| Posts.DeleteComment | routes/api/posts.js:178-221 | Same statuses and guards as the source: 401 exactly when the found comment's author is not the requester, and 200 exactly when every guard passes. But the entry removed is the comment with the requested id. With distinct comment ids, no comment with that id remains. |
| Posts.CreateThenDelete | routes/api/posts.js:75-94 | Deleting a post right after its author created it restores the store. |
| Posts.OnlyAuthorDeletes | routes/api/posts.js:84-90 | After A creates a post, B ≠ A gets 401 deleting it. A gets 200, and fetching it afterwards gives 404. |
| Posts.AddThenDeleteComment | routes/api/posts.js:161 | Adding a comment and then deleting it by its id restores the store. |
| Users.RegistrationErrors | routes/api/users.js:14-24 | Each validator message is present exactly when its field fails: empty name, invalid e-mail, password shorter than 6. There are no errors iff all three pass. |
| Users.Register | routes/api/users.js:12-86 | Validation failure gives 400 with the errors. A known e-mail gives 400 "User already exists". Both leave the store unchanged. 200 iff valid and the e-mail was absent. Then exactly one user is appended with the name, the e-mail and `hash(password, salt)`. The token's subject is the new id and its lifetime is 360000. The invariant is kept. |
| Users.SecondRegistrationRefused | routes/api/users.js:31-36 | Registering an e-mail a second time is refused and adds no user. |
| Auth.CurrentUser | routes/api/auth.js:12-20 | Always 200. The body is the requester's record without the password, or null when there is none. |
| Auth.LoginErrors | routes/api/auth.js:28-29 | There is an e-mail error iff `isEmail` fails and a password error iff the field is absent. |
| Auth.Login | routes/api/auth.js:26-81 | The store is never changed. Validation failures give 400 with the errors. An unknown e-mail and a failed password compare both give the same 400 "Credentials are invalid". 200 iff a user with the e-mail exists and the compare succeeds. The body is then a token for that user's id. |
| Auth.FailuresIndistinguishable | routes/api/auth.js:44-55 | An unknown e-mail in one store and a wrong password in another give identical responses. |
| Auth.RegisterThenLogin | routes/api/auth.js:52-71 | If the hash verifies its own plaintext, logging in right after registering gives 200 with a token for the new id. |
| Text.Trim | routes/api/profile.js:73 | The result has no trimmable character at either end. It is an infix of the input framed by trimmable characters only. |
| Text.TrimPadded | routes/api/profile.js:73 | Trimming any trimmable padding around a clean core gives exactly that core. |
| Text.Split | routes/api/profile.js:73 | There are comma-count + 1 parts, none contains a comma, and joining them with commas gives the input back. |
| Text.SplitJoin | routes/api/profile.js:73 | Splitting the comma-join of a non-empty list of comma-free parts gives the list back. |
| Profiles.ParseSkills | routes/api/profile.js:72-74 | There is one entry per comma-separated segment, comma-count + 1. Every entry is the trim of its segment and has no surrounding whitespace and no comma. |
| Profiles.SkillsRoundTrip | routes/api/profile.js:72-74 | A non-empty list of clean, comma-free skills, joined with commas, parses back to itself. |
| Profiles.BuildFields | routes/api/profile.js:62-82 | `user` is the requester and `social` is always present. Every other field and every social key is present iff its body value is truthy, and then carries that value. Skills are parsed. |
| Profiles.ProfileErrors | routes/api/profile.js:34-35 | The status and skills messages are present exactly when those fields are empty. |
| Profiles.SetFields | routes/api/profile.js:89-93 | `$set` semantics: each supplied top-level key is overwritten, `social` as a whole. Unsupplied keys and the experience list are kept. |
| Profiles.NewProfile | routes/api/profile.js:97-98 | A new profile holds exactly the supplied fields, with empty skills (when absent) and empty experience. |
| Profiles.Upsert | routes/api/profile.js:86-100 | If the owner has a profile, only that entry changes, to its `$set` update. Otherwise one new profile is appended. Afterwards the owner has a profile. One-profile-per-user is preserved. |
| Profiles.UpsertTwice | routes/api/profile.js:86-100 | Upserting the same fields twice leaves the same profiles as once. |
| Profiles.UpsertProfile | routes/api/profile.js:38-104 | As written: the store always receives the upsert, even when validation fails and the answer is 400 with the errors. With no errors the answer is 200 with the requester's stored profile. |
| Profiles.AsWrittenWritesInvalidProfile | routes/api/profile.js:40-43 | Concrete case on the update path: a requester whose profile has status "dev" and skills ["rust"] sends skills "go" without status. The answer is 400, and the stored skills still become ["go"]. |
| Profiles.UpsertProfileChecked | routes/api/profile.js:39-104 | Validation failure gives 400 and an unchanged store. Otherwise the upsert runs, and the answer is the requester's profile with the given status and parsed skills. |
| Profiles.UpsertProfileTwice | routes/api/profile.js:86-100 | Posting the same profile twice leaves the store as posting it once. |
| Profiles.Populate | routes/api/profile.js:12-15 | The owner card is present iff the owner's user record exists, and it then holds that user's id, name and avatar. |
| Profiles.GetMyProfile | routes/api/profile.js:10-24 | 400 "There's no profile for this user" exactly when no profile belongs to the requester. Otherwise 200 with the requester's stored profile, populated. |
| Profiles.GetProfiles | routes/api/profile.js:111-119 | Always 200, with exactly one view per stored profile, in store order. Each view carries that profile and its populated owner card. |
| Profiles.GetProfileByUser | routes/api/profile.js:124-140 | 400 "Profile not found" exactly when the id is malformed or has no profile. Otherwise 200 with that user's profile and its populated owner card. |
| Profiles.DeleteAccount | routes/api/profile.js:145-167 | Posts are untouched. At most one profile and one user go. On a valid store, exactly the requester's profile and user record are removed, and the invariant is kept. |
| Profiles.ExperienceErrors | routes/api/profile.js:176-178 | The title, company and from messages are present exactly when those fields are empty. |
| Profiles.AddExperience | routes/api/profile.js:172-212 | Validation failure gives 400 and an unchanged store. No profile gives 500 and an unchanged store. Otherwise the requester's experience list grows by one. The new entry is at the head and the rest is unchanged. |
| Profiles.DeleteExperience | routes/api/profile.js:217-230 | No profile gives 500. Otherwise the list keeps exactly the entries whose id differs, in their original order and multiplicity. |
| Profiles.DeleteExperienceTwice | routes/api/profile.js:219-224 | Deleting the same experience id twice equals deleting it once. |
| Profiles.AddThenDeleteExperience | routes/api/profile.js:203-224 | Adding an experience with a new id and then deleting that id restores the store. |
| Records.FindUser | routes/api/auth.js:14 | `findById`: a user is returned iff one with that id is stored, and it is a stored user with that id. |
| Records.Issue | routes/api/users.js:62-71 | The token payload is `{ user: { id } }` for the given id, with `expiresIn` 360000. The handler-level promise is carried by `Users.Register` and `Auth.Login`, whose contracts name the id. |
| Seqs.RemoveFirst | routes/api/profile.js:150-157 | `findOneAndDelete`: when some element matches, exactly the first match goes, and the elements before and after it stay in order; otherwise nothing changes. With distinct keys this is the same as removing every match. |

## Left out

- MongoDB and Mongoose I/O: collections are in-memory sequences, and each handler is one atomic step. Concurrent requests and last-write-wins races are not modelled.
- Schema-level validation and defaults in `models/*.js` are not part of this model. That includes any `required` flags on profile fields and date defaults. `new Profile(...).save()` is assumed to succeed.
- Internals of bcrypt, jsonwebtoken and express-validator's `isEmail`: they are uninterpreted functions in `Records.Services`. Signing errors and the `throw` inside the `jwt.sign` callback are not modelled. Neither are token verification, expiry checking, and the authentication middleware, whose file is not part of this model.
- Which strings Mongoose can cast to an ObjectId: only the outcome of a failed cast is modelled (`Malformed`).
- Gravatar URL generation: the avatar is an input to `Users.Register`.
- Non-string JSON values in request bodies, such as a `skills` array that would make `split` throw: every body field is a string, and an absent field is the empty string. The exception is login's password, which is optional because only its presence is checked.
- The experience field `current` is a boolean in the model. An absent `current` is `undefined` in the source and is stored as the schema's default; the model takes that to be `false`. The profile schema is not part of this model.
- Users.RegistrationErrors: the password length is counted in Unicode scalar values. validator.js also discounts variation selectors, which is not modelled.
- Profiles.UpsertProfile: after a failed validation, the source's later `res.json` throws because headers were already sent. Only the 400 that reached the client and the store write are modelled.
- Logging, `server.js` bootstrap and routing, and the React client (`client/src/App.js`, `client/src/components/layout/PageSection.js`): no handler logic.

## Findings

| source | as written | input that shows it | evidently intended | confidence | as-written member | corrected member |
|---|---|---|---|---|---|---|
| routes/api/posts.js:205-209 | Looks up the comment by `comment_id` and checks its author, but splices out the first comment whose author is the requester | A post whose comments are `[a, b]`, both by user u; u deletes `b` | Remove the comment whose id was requested | high (not executed) | Posts.DeleteCommentAsWritten, Posts.AsWrittenDeletesOtherComment | Posts.DeleteComment |
| routes/api/profile.js:40-43 | On validation errors sends 400 but does not `return`, so the upsert below still writes | A body with `skills` "go" and no `status`, from a user who already has a profile: the update path, where `findOneAndUpdate` runs no schema validators | Return after the 400, writing nothing | high (not executed) | Profiles.UpsertProfile, Profiles.AsWrittenWritesInvalidProfile | Profiles.UpsertProfileChecked |
