/** The documents the route handlers read and write, the in-memory store that
    replaces the three MongoDB collections, the JSON bodies the handlers send,
    and the external services (password hashing, token signing, e-mail
    syntax) the handlers call but whose internals are not modelled. */
module Records {

  import opened Seqs

  datatype Option<T> = None | Some(value: T)

  /** Canonical string form of a document id (an ObjectId's hex string). The
      source compares ids with `toString()` and `===`, so ids are strings. */
  type Id = string

  /** A route parameter that Mongoose must cast to an ObjectId before
      querying. A parameter that does not cast makes the query throw an error
      whose `kind` is "ObjectId"; which strings cast is not modelled. */
  datatype IdParam = Castable(id: Id) | Malformed(raw: string)

  // ---------------------------------------------------------------- documents

  datatype User = User(id: Id, name: string, email: string, avatar: string, password: string)

  /** A user as returned with `.select('-password')`. */
  datatype PublicUser = PublicUser(id: Id, name: string, email: string, avatar: string)

  datatype Like = Like(user: Id)

  datatype Comment = Comment(id: Id, user: Id, text: string, name: string, avatar: string, date: int)

  datatype Post = Post(
    id: Id, user: Id, text: string, name: string, avatar: string,
    likes: seq<Like>, comments: seq<Comment>, date: int)

  datatype Social = Social(
    youtube: Option<string>, facebook: Option<string>, twitter: Option<string>,
    instagram: Option<string>, linkedin: Option<string>)

  datatype Experience = Experience(
    id: Id, title: string, company: string, location: string,
    from: string, to: string, current: bool, description: string)

  /** A profile document. A field that was never set is `None`; `skills` and
      `experience` are arrays, which Mongoose initialises to empty. */
  datatype Profile = Profile(
    user: Id,
    company: Option<string>, website: Option<string>, location: Option<string>,
    bio: Option<string>, status: Option<string>, githubusername: Option<string>,
    skills: seq<string>, social: Social, experience: seq<Experience>)

  /** The three collections, each in natural (insertion) order, which is the
      order `find` and `findOne` scan them in. */
  datatype Store = Store(users: seq<User>, profiles: seq<Profile>, posts: seq<Post>)

  // Keys the collections are searched by.
  function UserId(u: User): Id { u.id }
  function UserEmail(u: User): string { u.email }
  function PostId(p: Post): Id { p.id }
  function ProfileUser(p: Profile): Id { p.user }
  function LikeUser(l: Like): Id { l.user }
  function CommentId(c: Comment): Id { c.id }
  function CommentUser(c: Comment): Id { c.user }
  function ExperienceId(e: Experience): Id { e.id }

  /** What the store and the handlers keep true: `_id`s are unique, the
      registration handler keeps e-mails unique, and the profile upsert keeps
      one profile per user. */
  predicate Valid(st: Store)
  {
    && Distinct(st.users, UserId)
    && Distinct(st.users, UserEmail)
    && Distinct(st.profiles, ProfileUser)
    && Distinct(st.posts, PostId)
  }

  /** `User.findById(id)`: the user with that id, if any. */
  function FindUser(users: seq<User>, id: Id): (r: Option<User>)
    ensures r.Some? <==> Contains(users, UserId, id)
    ensures r.Some? ==> r.value in users && r.value.id == id
  {
    var i := IndexOf(users, UserId, id);
    if i < |users| then Some(users[i]) else None
  }

  // ---------------------------------------------------------------- responses

  const OK := 200
  const BadRequest := 400
  const Unauthorized := 401
  const NotFound := 404
  const ServerError := 500

  /** One entry of an `errors` array: a validator's message for a request
      field, or a bare `{ msg }`. */
  datatype ErrorItem = FieldError(param: string, msg: string) | Notice(msg: string)

  /** A populated profile: `populate('user', ['name', 'avatar'])` replaces
      the owner id by the owner's card, or by null when the user is gone. */
  datatype Card = Card(id: Id, name: string, avatar: string)
  datatype ProfileView = ProfileView(profile: Profile, owner: Option<Card>)

  /** Payload `{ user: { id } }` of an issued token. */
  datatype Claims = Claims(userId: Id)

  /** A signed token: its claims, its lifetime in seconds and the signature
      the signing service computed over both. */
  datatype Jwt = Jwt(claims: Claims, expiresIn: nat, signature: string)

  datatype Body =
    | Message(msg: string)
    | Errors(errors: seq<ErrorItem>)
    | StatusText                      // `res.sendStatus(code)`
    | TokenBody(token: Jwt)
    | UserBody(user: Option<PublicUser>)
    | PostBody(post: Post)
    | PostsBody(posts: seq<Post>)
    | LikesBody(likes: seq<Like>)
    | CommentsBody(comments: seq<Comment>)
    | ProfileBody(profile: Profile)
    | ViewBody(view: ProfileView)
    | ViewsBody(views: seq<ProfileView>)

  datatype Response = Response(status: int, body: Body)

  /** What a mutating handler produces: the response and the store after it. */
  datatype Outcome = Outcome(response: Response, after: Store)

  /** `res.sendStatus(500)` with nothing written. */
  function Failed(st: Store): Outcome
  {
    Outcome(Response(ServerError, StatusText), st)
  }

  // ------------------------------------------------------- external services

  /** The functions the handlers call into but which are not modelled:
      express-validator's `isEmail`, bcrypt's `hash(plaintext, salt)` and
      `compare(plaintext, digest)`, and `jwt.sign` with the server's secret
      already applied (so `sign(claims, expiresIn)` is the signature). */
  datatype Services = Services(
    isEmail: string -> bool,
    hash: (string, string) -> string,
    compare: (string, string) -> bool,
    sign: (Claims, nat) -> string)

  /** bcrypt's promise: a digest made from a plaintext verifies against it. */
  ghost predicate HashVerifies(svc: Services)
  {
    forall plain, salt :: svc.compare(plain, svc.hash(plain, salt))
  }

  /** `expiresIn: 360000` */
  const TokenLifetime: nat := 360000

  /** The token both registration and login send for user `id`. */
  function Issue(svc: Services, id: Id): (t: Jwt)
    ensures t.claims.userId == id && t.expiresIn == TokenLifetime
  {
    Jwt(Claims(id), TokenLifetime, svc.sign(Claims(id), TokenLifetime))
  }
}
