/**
 * The three tables of the blog database and the SQL the handlers run on them, as
 * functions on sequences of rows (rows in insertion order).  Timestamps are integers
 * that order like the stored `CURRENT_TIMESTAMP` text does.
 */
module Schema {
  import opened Common
  import opened Text

  type Timestamp = int

  datatype User = User(id: int, name: string, email: string, password: string, createdAt: Timestamp)

  datatype Blog = Blog(
    id: int, title: string, content: string, imagePath: Option<string>,
    authorId: int, createdAt: Timestamp, updatedAt: Timestamp, likes: int)

  datatype Comment = Comment(id: int, blogId: int, userId: int, content: string, createdAt: Timestamp)

  /** `SELECT b.*, u.name AS author_name FROM blogs b JOIN users u ON b.author_id = u.id`. */
  datatype BlogRow = BlogRow(blog: Blog, authorName: string)

  /** `SELECT c.*, u.name AS commenter_name FROM comments c JOIN users u ON c.user_id = u.id`. */
  datatype CommentRow = CommentRow(comment: Comment, commenterName: string)

  // ---------------------------------------------------------------- table keys and invariants

  /** `id INTEGER PRIMARY KEY` on users. */
  predicate DistinctUserIds(users: seq<User>) {
    forall i, j :: 0 <= i < j < |users| ==> users[i].id != users[j].id
  }

  /** `email TEXT UNIQUE` on users. */
  predicate DistinctEmails(users: seq<User>) {
    forall i, j :: 0 <= i < j < |users| ==> users[i].email != users[j].email
  }

  /** `id INTEGER PRIMARY KEY` on blogs. */
  predicate DistinctBlogIds(blogs: seq<Blog>) {
    forall i, j :: 0 <= i < j < |blogs| ==> blogs[i].id != blogs[j].id
  }

  /**
   * Some user row has this id: the reference `author_id REFERENCES users (id)` resolves.
   * SQLite does not check it (foreign keys are never switched on); the handlers keep it.
   */
  predicate HasUser(users: seq<User>, id: int) {
    exists u :: u in users && u.id == id
  }

  /** The users table keeps its keys distinct and below the next AUTOINCREMENT id. */
  predicate UsersWellFormed(users: seq<User>, nextUserId: int) {
    && DistinctUserIds(users) && DistinctEmails(users)
    && forall u :: u in users ==> u.id < nextUserId
  }

  /**
   * The blogs table keeps its ids distinct and below the next AUTOINCREMENT id (enforced
   * by the primary key), its like counters non-negative and every author reference
   * resolving (invariants the handlers keep, not constraints the database checks).
   */
  predicate BlogsWellFormed(blogs: seq<Blog>, users: seq<User>, nextBlogId: int) {
    && DistinctBlogIds(blogs)
    && forall b :: b in blogs ==> b.id < nextBlogId && b.likes >= 0 && HasUser(users, b.authorId)
  }

  // ---------------------------------------------------------------- generic row helpers

  /** `fetchone()` of a filtered SELECT: the first row satisfying `p`. */
  function First<T>(xs: seq<T>, p: T -> bool): (r: Option<T>)
    ensures r.None? <==> forall x :: x in xs ==> !p(x)
    ensures r.Some? ==> r.value in xs && p(r.value)
  {
    if xs == [] then None
    else if p(xs[0]) then Some(xs[0])
    else First(xs[1..], p)
  }

  /** A WHERE clause: keeps the rows satisfying `p`, each as often as it occurs, in order. */
  function Filter<T(!new)>(xs: seq<T>, p: T -> bool): (r: seq<T>)
    ensures |r| <= |xs|
    ensures forall x :: x in r <==> x in xs && p(x)
    ensures forall x :: multiset(r)[x] == if p(x) then multiset(xs)[x] else 0
    ensures (forall i :: 0 <= i < |xs| ==> p(xs[i])) ==> r == xs
  {
    if xs == [] then []
    else
      var rest := Filter(xs[1..], p);
      assert xs == [xs[0]] + xs[1..];
      assert multiset(xs) == multiset{xs[0]} + multiset(xs[1..]);
      if p(xs[0]) then
        assert multiset([xs[0]] + rest) == multiset{xs[0]} + multiset(rest);
        [xs[0]] + rest
      else rest
  }

  // ---------------------------------------------------------------- ORDER BY created_at DESC

  /** Ordered by the `created` key, newest first. */
  predicate NewestFirst<T>(xs: seq<T>, created: T -> Timestamp) {
    forall i, j :: 0 <= i < j < |xs| ==> created(xs[i]) >= created(xs[j])
  }

  lemma NewestFirstCons<T>(y: T, rest: seq<T>, created: T -> Timestamp)
    requires NewestFirst(rest, created)
    requires forall j :: 0 <= j < |rest| ==> created(y) >= created(rest[j])
    ensures NewestFirst([y] + rest, created)
  {
    var r := [y] + rest;
    forall i, j | 0 <= i < j < |r|
      ensures created(r[i]) >= created(r[j])
    {
      if i > 0 {
        assert r[i] == rest[i - 1] && r[j] == rest[j - 1];
      }
    }
  }

  function InsertNewestFirst<T>(x: T, xs: seq<T>, created: T -> Timestamp): (r: seq<T>)
    requires NewestFirst(xs, created)
    ensures NewestFirst(r, created)
    ensures multiset(r) == multiset(xs) + multiset{x}
    decreases |xs|
  {
    if xs == [] || created(xs[0]) <= created(x) then
      NewestFirstCons(x, xs, created);
      [x] + xs
    else
      var rest := InsertNewestFirst(x, xs[1..], created);
      assert xs == [xs[0]] + xs[1..];
      forall j | 0 <= j < |rest|
        ensures created(xs[0]) >= created(rest[j])
      {
        var y := rest[j];
        assert y in multiset(rest);
        if y != x {
          assert y in multiset(xs[1..]);
          var k :| 0 <= k < |xs[1..]| && xs[1..][k] == y;
          assert xs[k + 1] == y;
        }
      }
      NewestFirstCons(xs[0], rest, created);
      [xs[0]] + rest
  }

  /**
   * `ORDER BY created_at DESC`.  Rows with equal keys come out in some order; SQLite
   * does not fix one either, and no property below depends on it.
   */
  function SortNewestFirst<T>(xs: seq<T>, created: T -> Timestamp): (r: seq<T>)
    ensures NewestFirst(r, created)
    ensures multiset(r) == multiset(xs)
  {
    if xs == [] then []
    else
      assert xs == [xs[0]] + xs[1..];
      InsertNewestFirst(xs[0], SortNewestFirst(xs[1..], created), created)
  }

  function BlogCreated(b: Blog): Timestamp { b.createdAt }
  function RowCreated(r: BlogRow): Timestamp { r.blog.createdAt }
  function CommentCreated(r: CommentRow): Timestamp { r.comment.createdAt }

  // ---------------------------------------------------------------- joins

  /** The user row with this id (`users.id` is a primary key, so there is at most one). */
  function UserById(users: seq<User>, id: int): (r: Option<User>)
    ensures r.Some? <==> HasUser(users, id)
    ensures r.Some? ==> r.value in users && r.value.id == id
  {
    First(users, (u: User) => u.id == id)
  }

  /** `row` is what the join produces for `row.blog`: its author exists and is named. */
  predicate AuthorJoined(users: seq<User>, row: BlogRow) {
    var u := UserById(users, row.blog.authorId);
    u.Some? && row.authorName == u.value.name
  }

  /** The inner join of blogs with their authors; a post whose author is missing drops out. */
  function JoinAuthors(blogs: seq<Blog>, users: seq<User>): (rows: seq<BlogRow>)
    ensures |rows| <= |blogs|
    ensures forall row :: row in rows <==> row.blog in blogs && AuthorJoined(users, row)
  {
    if blogs == [] then []
    else
      var rest := JoinAuthors(blogs[1..], users);
      assert blogs == [blogs[0]] + blogs[1..];
      match UserById(users, blogs[0].authorId)
      case None => rest
      case Some(u) => [BlogRow(blogs[0], u.name)] + rest
  }

  predicate CommenterJoined(users: seq<User>, row: CommentRow) {
    var u := UserById(users, row.comment.userId);
    u.Some? && row.commenterName == u.value.name
  }

  /** The inner join of comments with the users who wrote them. */
  function JoinCommenters(comments: seq<Comment>, users: seq<User>): (rows: seq<CommentRow>)
    ensures |rows| <= |comments|
    ensures forall row :: row in rows <==> row.comment in comments && CommenterJoined(users, row)
  {
    if comments == [] then []
    else
      var rest := JoinCommenters(comments[1..], users);
      assert comments == [comments[0]] + comments[1..];
      match UserById(users, comments[0].userId)
      case None => rest
      case Some(u) => [CommentRow(comments[0], u.name)] + rest
  }

  /** The join keeps each post once per occurrence in the table, provided its author exists. */
  lemma {:induction false} JoinAuthorsCounts(blogs: seq<Blog>, users: seq<User>)
    ensures forall row :: multiset(JoinAuthors(blogs, users))[row] ==
               (if AuthorJoined(users, row) then multiset(blogs)[row.blog] else 0)
  {
    if blogs != [] {
      var rest := JoinAuthors(blogs[1..], users);
      JoinAuthorsCounts(blogs[1..], users);
      assert blogs == [blogs[0]] + blogs[1..];
      assert multiset(blogs) == multiset{blogs[0]} + multiset(blogs[1..]);
      match UserById(users, blogs[0].authorId)
      case None =>
      case Some(u) =>
        var head := BlogRow(blogs[0], u.name);
        assert multiset([head] + rest) == multiset{head} + multiset(rest);
        forall row: BlogRow | row.blog == blogs[0] && AuthorJoined(users, row)
          ensures row == head
        {
        }
    }
  }

  /** The join keeps each comment once per occurrence in the table, provided its writer exists. */
  lemma {:induction false} JoinCommentersCounts(comments: seq<Comment>, users: seq<User>)
    ensures forall row :: multiset(JoinCommenters(comments, users))[row] ==
               (if CommenterJoined(users, row) then multiset(comments)[row.comment] else 0)
  {
    if comments != [] {
      var rest := JoinCommenters(comments[1..], users);
      JoinCommentersCounts(comments[1..], users);
      assert comments == [comments[0]] + comments[1..];
      assert multiset(comments) == multiset{comments[0]} + multiset(comments[1..]);
      match UserById(users, comments[0].userId)
      case None =>
      case Some(u) =>
        var head := CommentRow(comments[0], u.name);
        assert multiset([head] + rest) == multiset{head} + multiset(rest);
        forall row: CommentRow | row.comment == comments[0] && CommenterJoined(users, row)
          ensures row == head
        {
        }
    }
  }

  // ---------------------------------------------------------------- LIKE

  /**
   * SQLite `text LIKE pattern` with no ESCAPE clause: `%` matches any run of characters,
   * `_` any one character, and letters compare without regard to ASCII case.
   */
  predicate Like(text: string, pattern: string)
    decreases |text| + |pattern|
  {
    if pattern == [] then text == []
    else if pattern[0] == '%' then Like(text, pattern[1..]) || (text != [] && Like(text[1..], pattern))
    else text != [] && (pattern[0] == '_' || AsciiLowerChar(text[0]) == AsciiLowerChar(pattern[0]))
         && Like(text[1..], pattern[1..])
  }

  predicate NoWildcards(s: string) {
    '%' !in s && '_' !in s
  }

  lemma {:induction false} LikeAnything(text: string)
    ensures Like(text, "%")
    decreases |text|
  {
    if text != [] {
      LikeAnything(text[1..]);
    }
  }

  /** `text LIKE q || '%'`: `q` is a case-insensitive prefix of `text`. */
  lemma {:induction false} LikePrefix(text: string, q: string)
    requires NoWildcards(q)
    ensures Like(text, q + "%") <==> |q| <= |text| && AsciiLower(text[..|q|]) == AsciiLower(q)
    decreases |q|
  {
    if q == [] {
      assert q + "%" == "%";
      LikeAnything(text);
      assert AsciiLower(text[..0]) == [];
    } else {
      assert (q + "%")[1..] == q[1..] + "%";
      assert NoWildcards(q[1..]) by {
        assert forall c :: c in q[1..] ==> c in q;
      }
      if text != [] {
        LikePrefix(text[1..], q[1..]);
        if |q| <= |text| {
          var a, b := AsciiLower(text[..|q|]), AsciiLower(q);
          var a', b' := AsciiLower(text[1..][..|q| - 1]), AsciiLower(q[1..]);
          assert a == [a[0]] + a' && b == [b[0]] + b';
        }
      }
    }
  }

  /** `text LIKE '%' || p`: some suffix of `text` matches `p`. */
  lemma {:induction false} LikeSomeSuffix(text: string, p: string)
    ensures Like(text, "%" + p) <==> exists i :: 0 <= i <= |text| && Like(text[i..], p)
    decreases |text|
  {
    assert ("%" + p)[1..] == p;
    if text == [] {
      assert text[0..] == text;
    } else {
      LikeSomeSuffix(text[1..], p);
      if exists i :: 0 <= i <= |text| && Like(text[i..], p) {
        var i :| 0 <= i <= |text| && Like(text[i..], p);
        if i > 0 {
          assert text[1..][i - 1..] == text[i..];
        }
      }
      if exists i :: 0 <= i <= |text[1..]| && Like(text[1..][i..], p) {
        var i :| 0 <= i <= |text[1..]| && Like(text[1..][i..], p);
        assert text[1..][i..] == text[i + 1..];
        assert Like(text[1..], "%" + p);
      }
      assert text[0..] == text;
    }
  }

  /**
   * The search pattern `'%' || q || '%'`: for a query without wildcards it matches
   * exactly the texts that contain the query, ignoring ASCII case.
   */
  lemma LikeContains(text: string, q: string)
    requires NoWildcards(q)
    ensures Like(text, "%" + q + "%") <==> Contains(AsciiLower(text), AsciiLower(q))
  {
    assert "%" + q + "%" == "%" + (q + "%");
    LikeSomeSuffix(text, q + "%");
    var lt, lq := AsciiLower(text), AsciiLower(q);
    forall i | 0 <= i <= |text|
      ensures Like(text[i..], q + "%") <==> (i <= |lt| - |lq| && lq <= lt[i..])
    {
      LikePrefix(text[i..], q);
      if |q| <= |text[i..]| {
        assert AsciiLower(text[i..][..|q|]) == lt[i..][..|q|];
      }
    }
  }

  // ---------------------------------------------------------------- the handlers' statements

  /** The rows matched by `WHERE id = ? AND author_id = ?`. */
  predicate Owned(b: Blog, id: int, uid: int) {
    b.id == id && b.authorId == uid
  }

  /**
   * `UPDATE blogs SET title = ?, content = ?, image_path = ?, updated_at = now
   *  WHERE id = ? AND author_id = ?`.
   */
  function UpdateOwned(blogs: seq<Blog>, id: int, uid: int, title: string, content: string,
                       image: Option<string>, now: Timestamp): (r: seq<Blog>)
    ensures |r| == |blogs|
    ensures forall i :: 0 <= i < |blogs| && !Owned(blogs[i], id, uid) ==> r[i] == blogs[i]
    ensures forall i :: 0 <= i < |blogs| && Owned(blogs[i], id, uid) ==>
      && r[i].title == title && r[i].content == content
      && r[i].imagePath == image && r[i].updatedAt == now
      && r[i].id == blogs[i].id && r[i].authorId == blogs[i].authorId
      && r[i].createdAt == blogs[i].createdAt && r[i].likes == blogs[i].likes
  {
    seq(|blogs|, i requires 0 <= i < |blogs| =>
      if Owned(blogs[i], id, uid)
      then blogs[i].(title := title, content := content, imagePath := image, updatedAt := now)
      else blogs[i])
  }

  /** `DELETE FROM blogs WHERE id = ? AND author_id = ?`. */
  function DeleteOwned(blogs: seq<Blog>, id: int, uid: int): (r: seq<Blog>)
    ensures forall b :: b in r <==> b in blogs && !Owned(b, id, uid)
    ensures forall b :: !Owned(b, id, uid) ==> multiset(r)[b] == multiset(blogs)[b]
  {
    Filter(blogs, Kept(id, uid))
  }

  /** The rows a `DELETE ... WHERE id = ? AND author_id = ?` keeps. */
  function Kept(id: int, uid: int): Blog -> bool {
    (b: Blog) => !Owned(b, id, uid)
  }

  /** `SELECT * FROM blogs WHERE id = ? AND author_id = ?` with `fetchone()`. */
  function OwnedBlog(blogs: seq<Blog>, id: int, uid: int): (r: Option<Blog>)
    ensures r.None? <==> forall b :: b in blogs ==> !Owned(b, id, uid)
    ensures r.Some? ==> r.value in blogs && Owned(r.value, id, uid)
  {
    First(blogs, (b: Blog) => Owned(b, id, uid))
  }

  /** An actor who owns no row with this id leaves the table exactly as it was. */
  lemma NonOwnerEditLeavesTable(blogs: seq<Blog>, id: int, uid: int, title: string, content: string,
                                image: Option<string>, now: Timestamp)
    requires OwnedBlog(blogs, id, uid).None?
    ensures UpdateOwned(blogs, id, uid, title, content, image, now) == blogs
  {
  }

  lemma NonOwnerDeleteLeavesTable(blogs: seq<Blog>, id: int, uid: int)
    requires OwnedBlog(blogs, id, uid).None?
    ensures DeleteOwned(blogs, id, uid) == blogs
  {
  }

  /** Edit and delete act on one row at most: the primary key singles it out. */
  lemma OwnedRowIsUnique(blogs: seq<Blog>, id: int, uid: int, i: int, j: int)
    requires DistinctBlogIds(blogs)
    requires 0 <= i < |blogs| && 0 <= j < |blogs|
    requires Owned(blogs[i], id, uid) && Owned(blogs[j], id, uid)
    ensures i == j
  {
  }

  lemma DistinctIdsCons(b: Blog, rest: seq<Blog>)
    requires DistinctBlogIds(rest)
    requires forall x :: x in rest ==> x.id != b.id
    ensures DistinctBlogIds([b] + rest)
  {
    var r := [b] + rest;
    forall i, j | 0 <= i < j < |r|
      ensures r[i].id != r[j].id
    {
      assert r[j] == rest[j - 1];
      if i > 0 {
        assert r[i] == rest[i - 1];
      }
    }
  }

  /** Deleting keeps the remaining ids distinct. */
  lemma {:induction false} DeleteKeepsIdsDistinct(blogs: seq<Blog>, id: int, uid: int)
    requires DistinctBlogIds(blogs)
    ensures DistinctBlogIds(DeleteOwned(blogs, id, uid))
  {
    if blogs != [] {
      var tail := blogs[1..];
      assert DistinctBlogIds(tail) by {
        forall i, j | 0 <= i < j < |tail| ensures tail[i].id != tail[j].id {
          assert tail[i] == blogs[i + 1] && tail[j] == blogs[j + 1];
        }
      }
      DeleteKeepsIdsDistinct(tail, id, uid);
      var rest := DeleteOwned(tail, id, uid);
      if !Owned(blogs[0], id, uid) {
        forall x | x in rest
          ensures x.id != blogs[0].id
        {
          var m :| 0 <= m < |tail| && tail[m] == x;
          assert tail[m] == blogs[m + 1];
        }
        DistinctIdsCons(blogs[0], rest);
        assert DeleteOwned(blogs, id, uid) == [blogs[0]] + rest;
      } else {
        assert DeleteOwned(blogs, id, uid) == rest;
      }
    }
  }

  /** The effect of `SET likes = likes + 1 WHERE id = ?` on one row. */
  function Liked(b: Blog, id: int): (r: Blog)
    ensures r.likes == b.likes + (if b.id == id then 1 else 0)
    ensures r.(likes := b.likes) == b
  {
    if b.id == id then b.(likes := b.likes + 1) else b
  }

  /** `UPDATE blogs SET likes = likes + 1 WHERE id = ?`. */
  function IncrementLikes(blogs: seq<Blog>, id: int): (r: seq<Blog>)
    ensures |r| == |blogs|
    ensures forall i :: 0 <= i < |blogs| ==> r[i] == Liked(blogs[i], id)
  {
    seq(|blogs|, i requires 0 <= i < |blogs| => Liked(blogs[i], id))
  }

  /** `SELECT likes FROM blogs WHERE id = ?` with `fetchone()`: the first row with the id. */
  function LikesOf(blogs: seq<Blog>, id: int): Option<int>
  {
    if blogs == [] then None
    else if blogs[0].id == id then Some(blogs[0].likes)
    else LikesOf(blogs[1..], id)
  }

  /** One increment raises the count `SELECT likes` reports by exactly one. */
  lemma {:induction false} LikesAfterIncrement(blogs: seq<Blog>, id: int)
    ensures LikesOf(blogs, id).None? ==> LikesOf(IncrementLikes(blogs, id), id).None?
    ensures LikesOf(blogs, id).Some? ==>
      LikesOf(IncrementLikes(blogs, id), id) == Some(LikesOf(blogs, id).value + 1)
  {
    if blogs != [] {
      var r := IncrementLikes(blogs, id);
      assert r[1..] == IncrementLikes(blogs[1..], id);
      if blogs[0].id != id {
        assert r[0].id != id;
        LikesAfterIncrement(blogs[1..], id);
      }
    }
  }

  /** `n` successive likes. */
  function LikeTimes(blogs: seq<Blog>, id: int, n: nat): seq<Blog> {
    if n == 0 then blogs else IncrementLikes(LikeTimes(blogs, id, n - 1), id)
  }

  /** After `n` likes the counter is its initial value plus `n`: no like is lost. */
  lemma {:induction false} LikesAfterLikes(blogs: seq<Blog>, id: int, n: nat)
    requires LikesOf(blogs, id).Some?
    ensures LikesOf(LikeTimes(blogs, id, n), id) == Some(LikesOf(blogs, id).value + n)
  {
    if n > 0 {
      var before := LikeTimes(blogs, id, n - 1);
      var k := LikesOf(blogs, id).value;
      LikesAfterLikes(blogs, id, n - 1);
      assert LikesOf(before, id) == Some(k + (n - 1));
      LikesAfterIncrement(before, id);
      assert LikesOf(IncrementLikes(before, id), id) == Some(k + n);
    }
  }

  // ---------------------------------------------------------------- the invariants survive

  /** Inserting a user with the next id and an unused email keeps both tables well formed. */
  lemma InsertUserKeepsWellFormed(users: seq<User>, blogs: seq<Blog>, nextUserId: int,
                                  nextBlogId: int, u: User)
    requires UsersWellFormed(users, nextUserId) && BlogsWellFormed(blogs, users, nextBlogId)
    requires u.id == nextUserId && forall v :: v in users ==> v.email != u.email
    ensures UsersWellFormed(users + [u], nextUserId + 1)
    ensures BlogsWellFormed(blogs, users + [u], nextBlogId)
    ensures forall id :: HasUser(users, id) ==> HasUser(users + [u], id)
  {
    var after := users + [u];
    forall id | HasUser(users, id)
      ensures HasUser(after, id)
    {
      var v :| v in users && v.id == id;
      assert v in after;
    }
    forall i, j | 0 <= i < j < |after|
      ensures after[i].id != after[j].id && after[i].email != after[j].email
    {
      if j == |users| {
        assert after[i] in users;
      }
    }
  }

  /** Inserting a post with the next id, no likes and an existing author keeps the table well formed. */
  lemma InsertBlogKeepsWellFormed(blogs: seq<Blog>, users: seq<User>, nextBlogId: int, b: Blog)
    requires BlogsWellFormed(blogs, users, nextBlogId)
    requires b.id == nextBlogId && b.likes == 0 && HasUser(users, b.authorId)
    ensures BlogsWellFormed(blogs + [b], users, nextBlogId + 1)
  {
    var after := blogs + [b];
    forall i, j | 0 <= i < j < |after|
      ensures after[i].id != after[j].id
    {
      if j == |blogs| {
        assert after[i] in blogs;
      }
    }
  }

  /** An edit changes no id, author or like count, so the table stays well formed. */
  lemma UpdateKeepsWellFormed(blogs: seq<Blog>, users: seq<User>, nextBlogId: int, id: int,
                              uid: int, title: string, content: string, image: Option<string>,
                              now: Timestamp)
    requires BlogsWellFormed(blogs, users, nextBlogId)
    ensures BlogsWellFormed(UpdateOwned(blogs, id, uid, title, content, image, now), users, nextBlogId)
  {
    var after := UpdateOwned(blogs, id, uid, title, content, image, now);
    forall x | x in after
      ensures x.id < nextBlogId && x.likes >= 0 && HasUser(users, x.authorId)
    {
      var k :| 0 <= k < |after| && after[k] == x;
      assert blogs[k] in blogs;
    }
  }

  lemma DeleteKeepsWellFormed(blogs: seq<Blog>, users: seq<User>, nextBlogId: int, id: int, uid: int)
    requires BlogsWellFormed(blogs, users, nextBlogId)
    ensures BlogsWellFormed(DeleteOwned(blogs, id, uid), users, nextBlogId)
  {
    DeleteKeepsIdsDistinct(blogs, id, uid);
  }

  /** A like only raises one counter, so the table stays well formed. */
  lemma LikeKeepsWellFormed(blogs: seq<Blog>, users: seq<User>, nextBlogId: int, id: int)
    requires BlogsWellFormed(blogs, users, nextBlogId)
    ensures BlogsWellFormed(IncrementLikes(blogs, id), users, nextBlogId)
  {
    var after := IncrementLikes(blogs, id);
    forall x | x in after
      ensures x.id < nextBlogId && x.likes >= 0 && HasUser(users, x.authorId)
    {
      var k :| 0 <= k < |after| && after[k] == x;
      assert blogs[k] in blogs;
    }
  }

  // ---------------------------------------------------------------- the handlers' queries

  /** `index`: every post whose author exists, with the author's name, newest first. */
  function IndexRows(users: seq<User>, blogs: seq<Blog>): (r: seq<BlogRow>)
    ensures NewestFirst(r, RowCreated)
    ensures forall row :: row in r <==> row.blog in blogs && AuthorJoined(users, row)
    ensures forall row :: multiset(r)[row] == if AuthorJoined(users, row) then multiset(blogs)[row.blog] else 0
  {
    var rows := JoinAuthors(blogs, users);
    var r := SortNewestFirst(rows, RowCreated);
    JoinAuthorsCounts(blogs, users);
    assert forall row :: row in r <==> row in multiset(rows);
    r
  }

  /** `my_blogs`: the posts whose author is `uid`, newest first. */
  function OwnBlogs(blogs: seq<Blog>, uid: int): (r: seq<Blog>)
    ensures NewestFirst(r, BlogCreated)
    ensures forall b :: b in r <==> b in blogs && b.authorId == uid
    ensures forall b :: multiset(r)[b] == if b.authorId == uid then multiset(blogs)[b] else 0
  {
    var mine := Filter(blogs, (b: Blog) => b.authorId == uid);
    var r := SortNewestFirst(mine, BlogCreated);
    assert forall b :: b in r <==> b in multiset(mine);
    r
  }

  /** `WHERE b.title LIKE '%q%' OR u.name LIKE '%q%'`. */
  predicate SearchMatch(row: BlogRow, query: string) {
    Like(row.blog.title, "%" + query + "%") || Like(row.authorName, "%" + query + "%")
  }

  /** `search` once the query is known to be non-empty: the matching joined rows, newest first. */
  function SearchRows(users: seq<User>, blogs: seq<Blog>, query: string): (r: seq<BlogRow>)
    ensures NewestFirst(r, RowCreated)
    ensures forall row :: row in r <==>
      row.blog in blogs && AuthorJoined(users, row) && SearchMatch(row, query)
    ensures forall row :: multiset(r)[row] ==
               (if AuthorJoined(users, row) && SearchMatch(row, query) then multiset(blogs)[row.blog] else 0)
  {
    var hits := Filter(JoinAuthors(blogs, users), (row: BlogRow) => SearchMatch(row, query));
    var r := SortNewestFirst(hits, RowCreated);
    JoinAuthorsCounts(blogs, users);
    assert forall row :: row in r <==> row in multiset(hits);
    r
  }

  /** `view_blog`: the joined row of the post with this id. */
  function BlogRowById(users: seq<User>, blogs: seq<Blog>, id: int): (r: Option<BlogRow>)
    ensures r.None? <==> forall b :: b in blogs && b.id == id ==> UserById(users, b.authorId).None?
    ensures r.Some? ==> r.value.blog in blogs && r.value.blog.id == id && AuthorJoined(users, r.value)
  {
    var r := First(JoinAuthors(blogs, users), (row: BlogRow) => row.blog.id == id);
    assert forall b :: b in blogs && b.id == id && UserById(users, b.authorId).Some? ==>
      BlogRow(b, UserById(users, b.authorId).value.name) in JoinAuthors(blogs, users);
    r
  }

  /** `view_blog`: the comments on post `id` with their writers' names, newest first. */
  function CommentRows(users: seq<User>, comments: seq<Comment>, id: int): (r: seq<CommentRow>)
    ensures NewestFirst(r, CommentCreated)
    ensures forall row :: row in r <==>
      row.comment in comments && row.comment.blogId == id && CommenterJoined(users, row)
    ensures forall row :: multiset(r)[row] ==
               (if row.comment.blogId == id && CommenterJoined(users, row) then multiset(comments)[row.comment] else 0)
  {
    var onPost := Filter(comments, (c: Comment) => c.blogId == id);
    var rows := JoinCommenters(onPost, users);
    var r := SortNewestFirst(rows, CommentCreated);
    JoinCommentersCounts(onPost, users);
    assert forall row :: row in r <==> row in multiset(rows);
    r
  }
}
