/**
 * The request handlers of the blog backend over in-memory `users` and `posts`
 * tables: register and create-post change the tables and live in the class
 * `BlogServer`; login and the two post reads only read them and are functions
 * of the tables.
 */
module Server {

  import opened Wrappers
  import opened Bcrypt
  import opened Jwt
  import opened Gate
  import opened Tables

  /** The hard-coded signing secret. */
  const JWT_SECRET: string := "tu_secreto_jwt_muy_seguro"

  const MISSING_CREDENTIALS: string := "Usuario y contrase\U{00F1}a son requeridos."
  const DUPLICATE_USERNAME: string := "El nombre de usuario ya existe."
  const REGISTERED: string := "Usuario registrado con \U{00E9}xito."
  const INVALID_CREDENTIALS: string := "Credenciales inv\U{00E1}lidas."
  const LOGGED_IN: string := "Login exitoso."
  const POST_NOT_FOUND: string := "Post no encontrado."
  const MISSING_POST_FIELDS: string := "T\U{00ED}tulo y cuerpo son requeridos."
  const POST_CREATED: string := "Post creado con \U{00E9}xito."

  /** The JSON (or, for `sendStatus`, plain-text) body of a response. */
  datatype Body =
    | Message(message: string)
    | StatusText(text: string)
    | Registered(message: string, userId: nat)
    | LoggedIn(message: string, token: string)
    | PostList(rows: seq<PostRow>)
    | OnePost(row: PostRow)
    | PostCreated(message: string, postId: nat)

  datatype Response = Response(status: nat, body: Body)

  /** A request-body field as the handlers test it with `!field`: absent,
      `null` and `""` are falsy. */
  predicate Present(field: Option<string>)
  {
    field.Some? && field.value != ""
  }

  /** The claims `jwt.sign` puts in the token of a login at second `now`. */
  function SessionClaims(u: User, now: nat): Claims
  {
    Claims(u.id, u.username, now, now + EXPIRES_IN)
  }

  predicate UniqueUsernames(users: seq<User>)
  {
    forall i, j :: 0 <= i < j < |users| ==> users[i].username != users[j].username
  }

  predicate UniqueUserIds(users: seq<User>)
  {
    forall i, j :: 0 <= i < j < |users| ==> users[i].id != users[j].id
  }

  // ----- POST /api/auth/login -----

  /** Some user row has this name and accepts this password. */
  predicate Authentic(users: seq<User>, name: string, password: string)
  {
    exists u :: u in users && u.username == name && Matches(password, u.passwordHash)
  }

  /** The login handler. Both the unknown-user and the wrong-password paths
      answer with the one 401 response. */
  function Login(users: seq<User>, username: Option<string>, password: Option<string>, now: nat): (res: Response)
    ensures res.status == 400 <==> !Present(username) || !Present(password)
    ensures res.status == 400 ==> res.body == Message(MISSING_CREDENTIALS)
    ensures UniqueUsernames(users) ==>
              (res.status == 401 <==>
                 Present(username) && Present(password) && !Authentic(users, username.value, password.value))
    ensures res.status == 401 ==> res.body == Message(INVALID_CREDENTIALS)
    ensures res.status == 200 ==>
              exists u :: u in users && u.username == username.value && Matches(password.value, u.passwordHash) &&
                res.body == LoggedIn(LOGGED_IN, Sign(JWT_SECRET, SessionClaims(u, now)))
    ensures res.status in {200, 400, 401}
  {
    if !Present(username) || !Present(password) then
      Response(400, Message(MISSING_CREDENTIALS))
    else
      match FindUserByName(users, username.value)
      case None => Response(401, Message(INVALID_CREDENTIALS))
      case Some(user) =>
        if !Matches(password.value, user.passwordHash) then Response(401, Message(INVALID_CREDENTIALS))
        else Response(200, LoggedIn(LOGGED_IN, Sign(JWT_SECRET, SessionClaims(user, now))))
  }

  // ----- GET /api/posts and GET /api/posts/:id -----

  /** The list route: 200 with every post whose owner exists, joined with the
      owner's name, newest first. */
  function ListPostsRoute(users: seq<User>, posts: seq<Post>): (res: Response)
    ensures res.status == 200 && res.body.PostList?
    ensures NewestFirst(res.body.rows)
    ensures multiset(res.body.rows) == multiset(Joined(posts, users))
    ensures forall r :: r in res.body.rows <==>
              exists p, u :: p in posts && u in users && Owns(u, p) && r == RowOf(p, u)
  {
    Response(200, PostList(ListPosts(users, posts)))
  }

  /** The by-id route: 404 exactly when no post with that id has an owner row,
      otherwise 200 with a joined row of that id. */
  function GetPostRoute(users: seq<User>, posts: seq<Post>, id: nat): (res: Response)
    ensures res.status == 404 <==>
              forall p, u :: p in posts && u in users && p.id == id ==> !Owns(u, p)
    ensures res.status == 404 ==> res.body == Message(POST_NOT_FOUND)
    ensures res.status != 404 ==>
              res.status == 200 && res.body.OnePost? && res.body.row.id == id &&
              exists p, u :: p in posts && u in users && Owns(u, p) && res.body.row == RowOf(p, u)
  {
    match PostById(users, posts, id)
    case None => Response(404, Message(POST_NOT_FOUND))
    case Some(row) => Response(200, OnePost(row))
  }

  // ----- table invariants -----

  /** User ids and user names are unique, and so are post ids. */
  predicate WellFormed(users: seq<User>, posts: seq<Post>)
  {
    UniqueUsernames(users) && UniqueUserIds(users) &&
    (forall i, j :: 0 <= i < j < |posts| ==> posts[i].id != posts[j].id)
  }

  /** The server state: the two tables and their `AUTO_INCREMENT` counters. */
  class BlogServer {
    var users: seq<User>
    var posts: seq<Post>
    var nextUserId: nat
    var nextPostId: nat

    ghost predicate Valid()
      reads this
    {
      WellFormed(users, posts) &&
      (forall u :: u in users ==> u.id < nextUserId) &&
      (forall p :: p in posts ==> p.id < nextPostId)
    }

    constructor ()
      ensures Valid()
      ensures users == [] && posts == [] && nextUserId == 1 && nextPostId == 1
    {
      users, posts := [], [];
      nextUserId, nextPostId := 1, 1;
    }

    /** POST /api/auth/register. `salt` is the random salt `bcrypt.hash` draws. */
    method Register(username: Option<string>, password: Option<string>, salt: nat) returns (res: Response)
      requires Valid()
      modifies this
      ensures Valid()
      ensures posts == old(posts) && nextPostId == old(nextPostId)
      ensures !Present(username) || !Present(password) ==>
                res == Response(400, Message(MISSING_CREDENTIALS)) &&
                users == old(users) && nextUserId == old(nextUserId)
      ensures Present(username) && Present(password) && FindUserByName(old(users), username.value).Some? ==>
                res == Response(409, Message(DUPLICATE_USERNAME)) &&
                users == old(users) && nextUserId == old(nextUserId)
      ensures Present(username) && Present(password) && FindUserByName(old(users), username.value).None? ==>
                res == Response(201, Registered(REGISTERED, old(nextUserId))) &&
                users == old(users) + [User(old(nextUserId), username.value, Hash(password.value, SALT_ROUNDS, salt))] &&
                nextUserId == old(nextUserId) + 1
    {
      if !Present(username) || !Present(password) {
        return Response(400, Message(MISSING_CREDENTIALS));
      }
      var existing := FindUserByName(users, username.value);
      if existing.Some? {
        return Response(409, Message(DUPLICATE_USERNAME));
      }
      var passwordHash := Hash(password.value, SALT_ROUNDS, salt);
      var id := nextUserId;
      users := users + [User(id, username.value, passwordHash)];
      nextUserId := nextUserId + 1;
      res := Response(201, Registered(REGISTERED, id));
    }

    /** POST /api/posts behind `authenticateToken`. `now` is both the gate's
        clock and the `created_at` the store assigns. */
    method CreatePost(authorization: Option<string>, title: Option<string>, body: Option<string>, now: nat)
      returns (res: Response)
      requires Valid()
      modifies this
      ensures Valid()
      ensures users == old(users) && nextUserId == old(nextUserId)
      ensures Authenticate(authorization, JWT_SECRET, now) == Unauthorized ==>
                res == Response(401, StatusText("Unauthorized")) &&
                posts == old(posts) && nextPostId == old(nextPostId)
      ensures Authenticate(authorization, JWT_SECRET, now) == Forbidden ==>
                res == Response(403, StatusText("Forbidden")) &&
                posts == old(posts) && nextPostId == old(nextPostId)
      ensures Authenticate(authorization, JWT_SECRET, now).Authorized? && (!Present(title) || !Present(body)) ==>
                res == Response(400, Message(MISSING_POST_FIELDS)) &&
                posts == old(posts) && nextPostId == old(nextPostId)
      ensures Authenticate(authorization, JWT_SECRET, now).Authorized? && Present(title) && Present(body) ==>
                res == Response(201, PostCreated(POST_CREATED, old(nextPostId))) &&
                posts == old(posts) + [Post(old(nextPostId), title.value, body.value,
                                            Authenticate(authorization, JWT_SECRET, now).user.userId, now)] &&
                nextPostId == old(nextPostId) + 1
    {
      var gate := Authenticate(authorization, JWT_SECRET, now);
      if gate == Unauthorized {
        return Response(401, StatusText("Unauthorized"));
      }
      if gate == Forbidden {
        return Response(403, StatusText("Forbidden"));
      }
      var userId := gate.user.userId;
      if !Present(title) || !Present(body) {
        return Response(400, Message(MISSING_POST_FIELDS));
      }
      var id := nextPostId;
      posts := posts + [Post(id, title.value, body.value, userId, now)];
      nextPostId := nextPostId + 1;
      res := Response(201, PostCreated(POST_CREATED, id));
    }
  }
}
