/**
 * The blog server: the database tables and the visitor's session as the state of one
 * object, and each route handler as a method on it.  What a handler sends back is a
 * `Response`; template rendering, flash storage and HTTP encoding are not modelled.
 */
module App {
  import opened Common
  import opened Text
  import opened Uploads
  import opened Schema

  /** The Flask session: empty, or holding `user_id` and `user_name` after a login. */
  datatype Session = Anonymous | SignedIn(userId: int, userName: string)

  /** The pages a handler renders or redirects to. */
  datatype Page = IndexPage | SignupPage | LoginPage | WritePage | MyBlogsPage | ViewBlogPage(id: int)

  /** The flashed messages. */
  datatype Notice =
    | FieldsRequired | PasswordsDoNotMatch | PasswordTooShort | EmailRegistered | AccountCreated
    | CredentialsRequired | Welcome(name: string) | InvalidCredentials | LoggedOut
    | PleaseLogIn | TitleContentRequired | Published | BlogNotFound
    | CannotEdit | Updated | CannotDelete | Deleted

  datatype Response =
    | Render(page: Page, notice: Option<Notice>)
    | Redirect(target: Page, notice: Option<Notice>)
    | EditForm(blog: Blog, notice: Option<Notice>)
    | Listing(rows: seq<BlogRow>)
    | OwnListing(blogs: seq<Blog>)
    | SearchResults(rows: seq<BlogRow>, query: string)
    | BlogPage(row: BlogRow, comments: seq<CommentRow>)
    | LikeCount(likes: int)

  /** What `login_required` answers instead of running the handler. */
  const LoginRedirect: Response := Redirect(LoginPage, Some(PleaseLogIn))

  /** `email.strip().lower()`. */
  function NormalizeEmail(email: string): string {
    AsciiLower(PyStrip(email))
  }

  /** `SELECT ... FROM users WHERE email = ?` with `fetchone()`. */
  function UserByEmail(users: seq<User>, email: string): (r: Option<User>)
    ensures r.None? <==> forall u :: u in users ==> u.email != email
    ensures r.Some? ==> r.value in users && r.value.email == email
  {
    First(users, (u: User) => u.email == email)
  }

  /**
   * The checks `signup` makes before it inserts, in its order; None means the new user
   * is inserted.  It passes exactly when the trimmed name, the normalised email and the
   * password are non-empty, the confirmation matches, the password has at least six
   * characters and no user has the email yet.
   */
  function SignupRejection(name: string, email: string, password: string, confirm: string,
                           users: seq<User>): (r: Option<Notice>)
    ensures r.None? <==>
      && PyStrip(name) != "" && NormalizeEmail(email) != "" && password != ""
      && password == confirm && |password| >= 6
      && forall u :: u in users ==> u.email != NormalizeEmail(email)
    ensures r == Some(FieldsRequired) <==>
      PyStrip(name) == "" || NormalizeEmail(email) == "" || password == ""
    ensures r == Some(PasswordsDoNotMatch) <==>
              PyStrip(name) != "" && NormalizeEmail(email) != "" && password != "" && password != confirm
    ensures r == Some(PasswordTooShort) <==>
              PyStrip(name) != "" && NormalizeEmail(email) != "" && password != ""
              && password == confirm && |password| < 6
    ensures r == Some(EmailRegistered) <==>
              PyStrip(name) != "" && NormalizeEmail(email) != "" && password != ""
              && password == confirm && |password| >= 6
              && exists u :: u in users && u.email == NormalizeEmail(email)
    ensures r.Some? ==> r.value in {FieldsRequired, PasswordsDoNotMatch, PasswordTooShort, EmailRegistered}
  {
    var n, e := PyStrip(name), NormalizeEmail(email);
    if n == "" || e == "" || password == "" then Some(FieldsRequired)
    else if password != confirm then Some(PasswordsDoNotMatch)
    else if |password| < 6 then Some(PasswordTooShort)
    else if UserByEmail(users, e).Some? then Some(EmailRegistered)
    else None
  }

  /** The user row a successful signup inserts. */
  function NewUser(id: int, name: string, email: string, hashed: string, now: Timestamp): User {
    User(id, PyStrip(name), NormalizeEmail(email), hashed, now)
  }

  /**
   * Once a signup with one spelling of an address has succeeded, no later signup with
   * any spelling that normalises the same way can succeed; when the later form passes
   * the other checks, it is refused as already registered.
   */
  lemma SecondSignupRejected(users: seq<User>, id: int, hashed: string, now: Timestamp,
                             name: string, email: string, password: string, confirm: string,
                             name2: string, email2: string, password2: string, confirm2: string)
    requires SignupRejection(name, email, password, confirm, users).None?
    requires NormalizeEmail(email2) == NormalizeEmail(email)
    ensures SignupRejection(name2, email2, password2, confirm2,
                            users + [NewUser(id, name, email, hashed, now)]).Some?
    ensures PyStrip(name2) != "" && password2 != "" && password2 == confirm2 && |password2| >= 6 ==>
              SignupRejection(name2, email2, password2, confirm2,
                              users + [NewUser(id, name, email, hashed, now)]) == Some(EmailRegistered)
  {
    var after := users + [NewUser(id, name, email, hashed, now)];
    assert after[|users|] in after;
  }

  /** The blog store together with the current visitor's session. */
  class BlogApp {
    /** `generate_password_hash`, left uninterpreted; its random salt is not modelled. */
    const hash: string -> string
    /** `secure_filename`, left uninterpreted. */
    const sanitize: string -> string

    var users: seq<User>
    var blogs: seq<Blog>
    var comments: seq<Comment>
    var session: Session
    /** The next AUTOINCREMENT value of each table. */
    var nextUserId: int
    var nextBlogId: int

    /**
     * What the handlers keep true of the store: the constraints the database enforces
     * (primary keys, `email UNIQUE`), invariants the handlers maintain without the
     * database's help (every post's author exists, likes never negative), a fresh id
     * above every id used, a session trusted to name an existing user, and a hash that
     * never returns its input.
     */
    ghost predicate Valid()
      reads this
    {
      && (forall p :: hash(p) != p)
      && UsersWellFormed(users, nextUserId)
      && BlogsWellFormed(blogs, users, nextBlogId)
      && (session.SignedIn? ==> HasUser(users, session.userId))
    }

    /** An empty database and no session. */
    constructor (hash: string -> string, sanitize: string -> string)
      requires forall p :: hash(p) != p
      ensures Valid()
      ensures this.hash == hash && this.sanitize == sanitize
      ensures users == [] && blogs == [] && comments == [] && session == Anonymous
    {
      this.hash := hash;
      this.sanitize := sanitize;
      users, blogs, comments := [], [], [];
      session := Anonymous;
      nextUserId, nextBlogId := 1, 1;
    }

    /** `check_password_hash`: the stored hash is the hash of the given password. */
    predicate CheckPasswordHash(stored: string, password: string) {
      hash(password) == stored
    }

    /** `POST /signup`. */
    method Signup(name: string, email: string, password: string, confirm: string, now: Timestamp)
      returns (resp: Response)
      requires Valid()
      modifies this`users, this`nextUserId
      ensures Valid()
      ensures var rejection := SignupRejection(name, email, password, confirm, old(users));
        if rejection.Some? then
          resp == Render(SignupPage, rejection) && users == old(users) && nextUserId == old(nextUserId)
        else
          && resp == Redirect(LoginPage, Some(AccountCreated))
          && users == old(users) + [NewUser(old(nextUserId), name, email, hash(password), now)]
          && users[|users| - 1].password != password
          && nextUserId == old(nextUserId) + 1
    {
      var rejection := SignupRejection(name, email, password, confirm, users);
      if rejection.Some? {
        resp := Render(SignupPage, rejection);
        return;
      }
      var user := NewUser(nextUserId, name, email, hash(password), now);
      assert user.password != password;
      InsertUser(user);
      resp := Redirect(LoginPage, Some(AccountCreated));
    }

    /** `INSERT INTO users`: the row gets the next AUTOINCREMENT id; its email is unused. */
    method InsertUser(user: User)
      requires Valid()
      requires user.id == nextUserId && forall v :: v in users ==> v.email != user.email
      modifies this`users, this`nextUserId
      ensures Valid()
      ensures users == old(users) + [user] && nextUserId == old(nextUserId) + 1
    {
      InsertUserKeepsWellFormed(users, blogs, nextUserId, nextBlogId, user);
      users := users + [user];
      nextUserId := nextUserId + 1;
    }

    /** `POST /login`. */
    method Login(email: string, password: string) returns (resp: Response)
      requires Valid()
      modifies this`session
      ensures Valid()
      ensures var e := NormalizeEmail(email);
        if e == "" || password == "" then
          resp == Render(LoginPage, Some(CredentialsRequired)) && session == old(session)
        else match UserByEmail(users, e)
          case Some(u) =>
            if CheckPasswordHash(u.password, password) then
              session == SignedIn(u.id, u.name) && resp == Redirect(IndexPage, Some(Welcome(u.name)))
            else
              session == old(session) && resp == Render(LoginPage, Some(InvalidCredentials))
          case None =>
            session == old(session) && resp == Render(LoginPage, Some(InvalidCredentials))
    {
      var e := NormalizeEmail(email);
      if e == "" || password == "" {
        resp := Render(LoginPage, Some(CredentialsRequired));
        return;
      }
      var user := UserByEmail(users, e);
      if user.Some? && CheckPasswordHash(user.value.password, password) {
        session := SignedIn(user.value.id, user.value.name);
        resp := Redirect(IndexPage, Some(Welcome(user.value.name)));
        assert HasUser(users, session.userId) by {
          assert user.value in users;
        }
      } else {
        resp := Render(LoginPage, Some(InvalidCredentials));
      }
    }

    /** `GET /logout`: not guarded by `login_required`, so it also answers an empty session. */
    method Logout() returns (resp: Response)
      requires Valid()
      modifies this`session
      ensures Valid()
      ensures session == Anonymous && resp == Redirect(IndexPage, Some(LoggedOut))
    {
      session := Anonymous;
      resp := Redirect(IndexPage, Some(LoggedOut));
    }

    /**
     * `POST /write`: `upload` is the filename of the `image` part, `stamp` the
     * `%Y%m%d_%H%M%S_` clock text and `now` the database's CURRENT_TIMESTAMP.
     */
    method WriteBlog(title: string, content: string, upload: Option<string>, stamp: string,
                     now: Timestamp) returns (resp: Response)
      requires Valid()
      modifies this`blogs, this`nextBlogId
      ensures Valid()
      ensures old(session).Anonymous? ==>
        resp == LoginRedirect && blogs == old(blogs) && nextBlogId == old(nextBlogId)
      ensures session.SignedIn? && (PyStrip(title) == "" || PyStrip(content) == "") ==>
        && resp == Render(WritePage, Some(TitleContentRequired))
        && blogs == old(blogs) && nextBlogId == old(nextBlogId)
      ensures session.SignedIn? && PyStrip(title) != "" && PyStrip(content) != "" ==>
        && blogs == old(blogs) + [Blog(old(nextBlogId), PyStrip(title), PyStrip(content),
                                       StoredImagePath(upload, stamp, sanitize),
                                       session.userId, now, now, 0)]
        && nextBlogId == old(nextBlogId) + 1
        && resp == Redirect(ViewBlogPage(old(nextBlogId)), Some(Published))
    {
      if session.Anonymous? {
        resp := LoginRedirect;
        return;
      }
      var t, c := PyStrip(title), PyStrip(content);
      if t == "" || c == "" {
        resp := Render(WritePage, Some(TitleContentRequired));
        return;
      }
      var image := StoredImagePath(upload, stamp, sanitize);
      var id := nextBlogId;
      InsertBlog(Blog(id, t, c, image, session.userId, now, now, 0));
      resp := Redirect(ViewBlogPage(id), Some(Published));
    }

    /** `INSERT INTO blogs`: the row gets the next AUTOINCREMENT id, no likes and an existing author. */
    method InsertBlog(post: Blog)
      requires Valid()
      requires post.id == nextBlogId && post.likes == 0 && HasUser(users, post.authorId)
      modifies this`blogs, this`nextBlogId
      ensures Valid()
      ensures blogs == old(blogs) + [post] && nextBlogId == old(nextBlogId) + 1
    {
      InsertBlogKeepsWellFormed(blogs, users, nextBlogId, post);
      blogs := blogs + [post];
      nextBlogId := nextBlogId + 1;
    }

    /** `GET /edit_blog/<id>`: the edit form, for the post's author only. */
    method EditBlogForm(id: int) returns (resp: Response)
      requires Valid()
      ensures session.Anonymous? ==> resp == LoginRedirect
      ensures session.SignedIn? ==>
        match OwnedBlog(blogs, id, session.userId)
        case None => resp == Redirect(MyBlogsPage, Some(CannotEdit))
        case Some(b) => resp == EditForm(b, None) && b.id == id && b.authorId == session.userId
    {
      if session.Anonymous? {
        return LoginRedirect;
      }
      match OwnedBlog(blogs, id, session.userId)
      case None => resp := Redirect(MyBlogsPage, Some(CannotEdit));
      case Some(b) => resp := EditForm(b, None);
    }

    /**
     * `POST /edit_blog/<id>`: only a row matching both the id and the session's user
     * is rewritten, and only its title, content, image path and update time.
     */
    method EditBlog(id: int, title: string, content: string, upload: Option<string>,
                    stamp: string, now: Timestamp) returns (resp: Response)
      requires Valid()
      modifies this`blogs
      ensures Valid()
      ensures old(session).Anonymous? ==> resp == LoginRedirect && blogs == old(blogs)
      ensures session.SignedIn? && OwnedBlog(old(blogs), id, session.userId).None? ==>
        resp == Redirect(MyBlogsPage, Some(CannotEdit)) && blogs == old(blogs)
      ensures session.SignedIn? && OwnedBlog(old(blogs), id, session.userId).Some? ==>
        var b := OwnedBlog(old(blogs), id, session.userId).value;
        if PyStrip(title) == "" || PyStrip(content) == "" then
          resp == EditForm(b, Some(TitleContentRequired)) && blogs == old(blogs)
        else
          && resp == Redirect(ViewBlogPage(id), Some(Updated))
          && blogs == UpdateOwned(old(blogs), id, session.userId, PyStrip(title), PyStrip(content),
                                  EditedImagePath(b.imagePath, upload, stamp, sanitize), now)
    {
      if session.Anonymous? {
        return LoginRedirect;
      }
      var found := OwnedBlog(blogs, id, session.userId);
      if found.None? {
        return Redirect(MyBlogsPage, Some(CannotEdit));
      }
      var b := found.value;
      var t, c := PyStrip(title), PyStrip(content);
      if t == "" || c == "" {
        return EditForm(b, Some(TitleContentRequired));
      }
      var image := EditedImagePath(b.imagePath, upload, stamp, sanitize);
      UpdateBlog(id, session.userId, t, c, image, now);
      resp := Redirect(ViewBlogPage(id), Some(Updated));
    }

    /** `UPDATE blogs SET ... WHERE id = ? AND author_id = ?`. */
    method UpdateBlog(id: int, uid: int, title: string, content: string, image: Option<string>,
                      now: Timestamp)
      requires Valid()
      modifies this`blogs
      ensures Valid()
      ensures blogs == UpdateOwned(old(blogs), id, uid, title, content, image, now)
    {
      UpdateKeepsWellFormed(blogs, users, nextBlogId, id, uid, title, content, image, now);
      blogs := UpdateOwned(blogs, id, uid, title, content, image, now);
    }

    /** `GET /delete_blog/<id>`: removes the row only when the session's user wrote it. */
    method DeleteBlog(id: int) returns (resp: Response)
      requires Valid()
      modifies this`blogs
      ensures Valid()
      ensures old(session).Anonymous? ==> resp == LoginRedirect && blogs == old(blogs)
      ensures session.SignedIn? ==>
        if OwnedBlog(old(blogs), id, session.userId).None? then
          resp == Redirect(MyBlogsPage, Some(CannotDelete)) && blogs == old(blogs)
        else
          resp == Redirect(MyBlogsPage, Some(Deleted)) && blogs == DeleteOwned(old(blogs), id, session.userId)
    {
      if session.Anonymous? {
        return LoginRedirect;
      }
      if OwnedBlog(blogs, id, session.userId).None? {
        resp := Redirect(MyBlogsPage, Some(CannotDelete));
      } else {
        DeleteKeepsWellFormed(blogs, users, nextBlogId, id, session.userId);
        blogs := DeleteOwned(blogs, id, session.userId);
        resp := Redirect(MyBlogsPage, Some(Deleted));
      }
    }

    /**
     * `GET /like_blog/<id>`: any signed-in user adds one like to the post; the answer
     * is the new count, or 0 when there is no such post.
     */
    method LikeBlog(id: int) returns (resp: Response)
      requires Valid()
      modifies this`blogs
      ensures Valid()
      ensures old(session).Anonymous? ==> resp == LoginRedirect && blogs == old(blogs)
      ensures session.SignedIn? ==>
        && blogs == IncrementLikes(old(blogs), id)
        && resp == LikeCount(match LikesOf(old(blogs), id) case Some(n) => n + 1 case None => 0)
    {
      if session.Anonymous? {
        return LoginRedirect;
      }
      LikeKeepsWellFormed(blogs, users, nextBlogId, id);
      LikesAfterIncrement(blogs, id);
      blogs := IncrementLikes(blogs, id);
      match LikesOf(blogs, id)
      case Some(n) => resp := LikeCount(n);
      case None => resp := LikeCount(0);
    }

    /** `GET /`: every post, newest first; the invariant keeps every post's author present. */
    method Index() returns (resp: Response)
      requires Valid()
      ensures resp == Listing(IndexRows(users, blogs))
      ensures forall b :: b in blogs ==> BlogRow(b, UserById(users, b.authorId).value.name) in resp.rows
    {
      resp := Listing(IndexRows(users, blogs));
    }

    /** `GET /blog/<id>`: the post with its comments, or back to the index. */
    method ViewBlog(id: int) returns (resp: Response)
      requires Valid()
      ensures match BlogRowById(users, blogs, id)
        case None => resp == Redirect(IndexPage, Some(BlogNotFound))
        case Some(row) => resp == BlogPage(row, CommentRows(users, comments, id))
      ensures resp.Redirect? <==> forall b :: b in blogs ==> b.id != id
    {
      match BlogRowById(users, blogs, id)
      case None => resp := Redirect(IndexPage, Some(BlogNotFound));
      case Some(row) => resp := BlogPage(row, CommentRows(users, comments, id));
    }

    /** `GET /my_blogs`: the session user's posts, newest first. */
    method MyBlogs() returns (resp: Response)
      requires Valid()
      ensures session.Anonymous? ==> resp == LoginRedirect
      ensures session.SignedIn? ==> resp == OwnListing(OwnBlogs(blogs, session.userId))
    {
      if session.Anonymous? {
        return LoginRedirect;
      }
      resp := OwnListing(OwnBlogs(blogs, session.userId));
    }

    /** `GET /search?q=`: a blank query goes back to the index without running a query. */
    method Search(q: string) returns (resp: Response)
      requires Valid()
      ensures PyStrip(q) == "" <==> resp == Redirect(IndexPage, None)
      ensures PyStrip(q) != "" ==> resp == SearchResults(SearchRows(users, blogs, PyStrip(q)), PyStrip(q))
    {
      var query := PyStrip(q);
      if query == "" {
        return Redirect(IndexPage, None);
      }
      resp := SearchResults(SearchRows(users, blogs, query), query);
    }
  }
}
