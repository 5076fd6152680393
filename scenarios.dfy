/**
 * Properties that relate several handlers: registering then logging in,
 * presenting the login token to the gate, and reading back a created post.
 */
module Scenarios {

  import opened Wrappers
  import opened Bcrypt
  import opened Jwt
  import opened Gate
  import opened Tables
  import opened Server

  /** Appending a row changes a name lookup only when the name was absent. */
  lemma {:induction false} FindUserAfterInsert(users: seq<User>, u: User, name: string)
    ensures FindUserByName(users + [u], name) ==
            if FindUserByName(users, name).Some? then FindUserByName(users, name)
            else if u.username == name then Some(u)
            else None
  {
    if users != [] {
      assert (users + [u])[1..] == users[1..] + [u];
      FindUserAfterInsert(users[1..], u, name);
    } else {
      assert [u][1..] == [];
    }
  }

  /** Registering a fresh name and logging in with the same password succeeds
      and the token carries the new row's id and name with a one-hour expiry. */
  lemma RegisterThenLogin(users: seq<User>, id: nat, name: string, password: string, salt: nat, now: nat)
    requires name != "" && password != ""
    requires FindUserByName(users, name).None?
    ensures Login(users + [User(id, name, Hash(password, SALT_ROUNDS, salt))], Some(name), Some(password), now) ==
            Response(200, LoggedIn(LOGGED_IN, Sign(JWT_SECRET, Claims(id, name, now, now + EXPIRES_IN))))
  {
    FindUserAfterInsert(users, User(id, name, Hash(password, SALT_ROUNDS, salt)), name);
    MatchesHash(password, password, SALT_ROUNDS, salt);
  }

  /** The token a successful login returns, sent after any one-word scheme,
      admits requests as the matched user for one hour and is refused with 403
      from then on. */
  lemma LoginTokenAdmitted(users: seq<User>, name: string, password: string, now: nat, later: nat, scheme: string)
    requires Login(users, Some(name), Some(password), now).status == 200
    requires ' ' !in scheme
    ensures FindUserByName(users, name).Some?
    ensures Authenticate(Some(scheme + " " + Login(users, Some(name), Some(password), now).body.token), JWT_SECRET, later) ==
            if later < now + EXPIRES_IN then Authorized(SessionClaims(FindUserByName(users, name).value, now))
            else Forbidden
  {
    var u := FindUserByName(users, name).value;
    SignedTokenAdmitted(scheme, JWT_SECRET, SessionClaims(u, now), later);
  }

  /** An unknown name and a wrong password for a known name get the same
      response, so the login route does not reveal in its response which names
      exist. */
  lemma LoginFailuresIndistinguishable(users: seq<User>, unknown: string, password1: string,
                                       known: string, password2: string, now: nat)
    requires unknown != "" && password1 != "" && known != "" && password2 != ""
    requires FindUserByName(users, unknown).None?
    requires FindUserByName(users, known).Some? && !Matches(password2, FindUserByName(users, known).value.passwordHash)
    ensures Login(users, Some(unknown), Some(password1), now) == Login(users, Some(known), Some(password2), now)
    ensures Login(users, Some(unknown), Some(password1), now).status == 401
  {
  }

  lemma {:induction false} JoinedAppend(posts: seq<Post>, p: Post, users: seq<User>)
    ensures Joined(posts + [p], users) == Joined(posts, users) + OwnerRows(p, users)
  {
    if posts == [] {
      assert [p][1..] == [];
    } else {
      assert (posts + [p])[1..] == posts[1..] + [p];
      JoinedAppend(posts[1..], p, users);
    }
  }

  lemma {:induction false} FirstWithIdSkip(a: seq<PostRow>, b: seq<PostRow>, id: nat)
    requires forall r :: r in a ==> r.id != id
    ensures FirstWithId(a + b, id) == FirstWithId(b, id)
  {
    if a != [] {
      assert (a + b)[1..] == a[1..] + b;
      FirstWithIdSkip(a[1..], b, id);
    } else {
      assert a + b == b;
    }
  }

  /** A post whose id is new to the table and whose owner row exists reads back
      by id with its title, body, timestamp and the owner's name. */
  lemma CreatedPostReadsBack(users: seq<User>, posts: seq<Post>, post: Post, owner: User)
    requires UniqueUserIds(users)
    requires owner in users && Owns(owner, post)
    requires forall p :: p in posts ==> p.id != post.id
    ensures GetPostRoute(users, posts + [post], post.id) == Response(200, OnePost(RowOf(post, owner)))
  {
    JoinedAppend(posts, post, users);
    FirstWithIdSkip(Joined(posts, users), OwnerRows(post, users), post.id);
    var row := FirstWithId(OwnerRows(post, users), post.id);
    assert RowOf(post, owner) in OwnerRows(post, users);
    var u :| u in users && Owns(u, post) && row.value == RowOf(post, u);
    var i :| 0 <= i < |users| && users[i] == u;
    var j :| 0 <= j < |users| && users[j] == owner;
    assert i == j;
  }

  /** Register, log in, create a post with the login token, and read it back:
      the post comes back with its title, body and the new user's name. */
  method RegisterLoginPostRoundTrip(name: string, password: string, salt: nat, title: string, body: string, now: nat)
    returns (res: Response)
    requires name != "" && password != "" && title != "" && body != ""
    ensures res == Response(200, OnePost(PostRow(1, title, body, now, name)))
  {
    var server := new BlogServer();
    assert FindUserByName([], name).None?;
    var registered := server.Register(Some(name), Some(password), salt);
    var user := User(1, name, Hash(password, SALT_ROUNDS, salt));
    assert server.users == [user] && server.posts == [] && server.nextPostId == 1;
    RegisterThenLogin([], 1, name, password, salt, now);
    var claims := Claims(1, name, now, now + EXPIRES_IN);
    var login := Login(server.users, Some(name), Some(password), now);
    assert login.body.token == Sign(JWT_SECRET, claims);
    SignedTokenAdmitted("Bearer", JWT_SECRET, claims, now);
    var header := "Bearer " + login.body.token;
    assert header == "Bearer" + " " + Sign(JWT_SECRET, claims);
    assert Authenticate(Some(header), JWT_SECRET, now) == Authorized(claims);
    var created := server.CreatePost(Some(header), Some(title), Some(body), now);
    var post := Post(1, title, body, 1, now);
    assert server.posts == [post] && server.users == [user];
    CreatedPostReadsBack([user], [], post, user);
    assert [] + [post] == [post];
    res := GetPostRoute(server.users, server.posts, 1);
  }

  /** On a consistent server, the login handler's 401 is decided by the whole
      users table: it answers 401 exactly when no row with the name accepts the
      password. */
  lemma LoginOnValidServer(server: BlogServer, name: string, password: string, now: nat)
    requires server.Valid()
    ensures Login(server.users, Some(name), Some(password), now).status == 401 <==>
              name != "" && password != "" && !Authentic(server.users, name, password)
  {
  }

  /** On a consistent server, the post `CreatePost` inserts for an existing
      user reads back by id with its fields and that user's name. */
  lemma CreatedPostReadsBackOnServer(server: BlogServer, title: string, body: string, owner: User, now: nat)
    requires server.Valid()
    requires owner in server.users
    ensures GetPostRoute(server.users, server.posts + [Post(server.nextPostId, title, body, owner.id, now)],
                         server.nextPostId) ==
            Response(200, OnePost(PostRow(server.nextPostId, title, body, now, owner.username)))
  {
    var post := Post(server.nextPostId, title, body, owner.id, now);
    CreatedPostReadsBack(server.users, server.posts, post, owner);
  }
}
