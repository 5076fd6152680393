/**
 * The `users` and `posts` tables and the two read queries of the post routes:
 * the list query (an inner join of each post with its owner's row, newest
 * first) and the by-id query (the same join restricted to one post id).
 */
module Tables {

  import opened Wrappers
  import opened Bcrypt

  /** A `users` row: `id`, `username`, `password_hash`. */
  datatype User = User(id: nat, username: string, passwordHash: Digest)

  /** A `posts` row: `id`, `title`, `body`, `user_id`, `created_at` (seconds). */
  datatype Post = Post(id: nat, title: string, body: string, userId: nat, createdAt: nat)

  /** A result row of the post queries: the post's id, title, body and
      creation time, and its owner's name. */
  datatype PostRow = PostRow(id: nat, title: string, body: string, createdAt: nat, username: string)

  function RowOf(p: Post, u: User): PostRow
  {
    PostRow(p.id, p.title, p.body, p.createdAt, u.username)
  }

  /** `p` joins with `u`: the post's owner id is the user's id. */
  predicate Owns(u: User, p: Post)
  {
    p.userId == u.id
  }

  /** The lookup of a user row by name; the first matching row. */
  function FindUserByName(users: seq<User>, name: string): (r: Option<User>)
    ensures r.Some? ==> r.value in users && r.value.username == name
    ensures r.None? <==> forall u :: u in users ==> u.username != name
  {
    if users == [] then None
    else if users[0].username == name then Some(users[0])
    else FindUserByName(users[1..], name)
  }

  /** The join rows of one post: one per user row that owns it. */
  function OwnerRows(p: Post, users: seq<User>): (rows: seq<PostRow>)
    ensures forall r :: r in rows <==> exists u :: u in users && Owns(u, p) && r == RowOf(p, u)
  {
    if users == [] then []
    else (if Owns(users[0], p) then [RowOf(p, users[0])] else []) + OwnerRows(p, users[1..])
  }

  /** The inner join of posts with their owners: a row for every pair of a
      post and a user that owns it, and nothing else. Posts whose owner has no
      row are dropped. */
  function Joined(posts: seq<Post>, users: seq<User>): (rows: seq<PostRow>)
    ensures forall r :: r in rows <==>
              exists p, u :: p in posts && u in users && Owns(u, p) && r == RowOf(p, u)
  {
    if posts == [] then []
    else
      var rows := OwnerRows(posts[0], users) + Joined(posts[1..], users);
      assert forall p :: p in posts <==> p == posts[0] || p in posts[1..];
      rows
  }

  // ----- newest first, by creation time -----

  predicate NewestFirst(rows: seq<PostRow>)
  {
    forall i, j :: 0 <= i < j < |rows| ==> rows[i].createdAt >= rows[j].createdAt
  }

  function InsertByDate(r: PostRow, rows: seq<PostRow>): (out: seq<PostRow>)
    requires NewestFirst(rows)
    ensures NewestFirst(out)
    ensures multiset(out) == multiset(rows) + multiset{r}
    ensures forall x :: x in out ==> x == r || x in rows
  {
    if rows == [] || rows[0].createdAt <= r.createdAt then [r] + rows
    else
      var rest := rows[1..];
      var tail := InsertByDate(r, rest);
      assert rows == [rows[0]] + rest;
      forall x | x in tail ensures x.createdAt <= rows[0].createdAt {
        if x != r {
          var i :| 0 <= i < |rest| && rest[i] == x;
          assert rows[i + 1] == x;
        }
      }
      [rows[0]] + tail
  }

  /** Orders rows newest first. Rows with equal timestamps come in an order the
      query leaves unspecified, and the contract does not fix it either. */
  function SortNewestFirst(rows: seq<PostRow>): (out: seq<PostRow>)
    ensures NewestFirst(out)
    ensures multiset(out) == multiset(rows)
  {
    if rows == [] then []
    else
      assert rows == [rows[0]] + rows[1..];
      InsertByDate(rows[0], SortNewestFirst(rows[1..]))
  }

  /** The list query: every joined row exactly as often as the join yields it,
      newest first, and only posts whose owner exists. */
  function ListPosts(users: seq<User>, posts: seq<Post>): (rows: seq<PostRow>)
    ensures NewestFirst(rows)
    ensures multiset(rows) == multiset(Joined(posts, users))
    ensures forall r :: r in rows <==>
              exists p, u :: p in posts && u in users && Owns(u, p) && r == RowOf(p, u)
  {
    var rows := SortNewestFirst(Joined(posts, users));
    assert forall r :: r in rows <==> r in Joined(posts, users) by {
      forall r ensures r in rows <==> r in Joined(posts, users) {
        assert r in rows <==> r in multiset(rows);
        assert r in Joined(posts, users) <==> r in multiset(Joined(posts, users));
      }
    }
    rows
  }

  /** The by-id query: the first joined row with post id `id`, if any. */
  function PostById(users: seq<User>, posts: seq<Post>, id: nat): (r: Option<PostRow>)
    ensures r.Some? ==> r.value.id == id && r.value in Joined(posts, users)
    ensures r.None? <==>
              forall p, u :: p in posts && u in users && p.id == id ==> !Owns(u, p)
  {
    var rows := Joined(posts, users);
    forall p, u | p in posts && u in users && p.id == id && Owns(u, p)
      ensures RowOf(p, u) in rows && RowOf(p, u).id == id
    {
    }
    FirstWithId(rows, id)
  }

  function FirstWithId(rows: seq<PostRow>, id: nat): (r: Option<PostRow>)
    ensures r.Some? ==> r.value.id == id && r.value in rows
    ensures r.None? <==> forall row :: row in rows ==> row.id != id
  {
    if rows == [] then None
    else if rows[0].id == id then Some(rows[0])
    else FirstWithId(rows[1..], id)
  }
}
