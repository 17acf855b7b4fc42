# Blog platform core in Dafny

This is a model of a small Flask blogging site and the browser script that ships with it.

On the server side (module `App`, built on `Schema`, `Uploads`, `TimeAgo` and `Text`):

- The three SQLite tables (users, blogs, comments) are sequences of rows.
- The visitor's session is a field of the `BlogApp` class.
- Each route handler is a method on that class: sign-up, login, logout, writing, editing, deleting and liking a post, the home page, a post with its comments, the author's own posts, and search.
- A handler returns the `Response` it would send: the page rendered or redirected to, and the flashed notice.
- Every method keeps the invariant `Valid()`:
  - the primary keys and the `email UNIQUE` constraint hold (the database enforces these);
  - every post's author exists and like counts are never negative (the handlers keep these; SQLite does not check `REFERENCES users(id)` because foreign keys are never switched on);
  - a signed-in session names an existing user (trusted, see "Left out");
  - the stored password is never the plain text.
- The SQL statements are functions on those sequences. `UPDATE`/`DELETE ... WHERE id = ? AND author_id = ?` touch only the author's own row. `ORDER BY created_at DESC` gives a sorted permutation of the selected rows.
- `LIKE '%q%'` follows SQLite's semantics: `%` and `_` are wildcards and ASCII letters match without regard to case.
- The `time_ago` display filter reproduces Python's `timedelta` normalisation.
- `allowed_file` is modelled with the stored image path it leads to.

On the client side (module `Script`):

- The password-strength meter (score, missing hints, label and colour).
- The field validation rules, including the e-mail regular expression.
- The word and character counter of the post editor.
- The two search-box guards.
- The size and type checks on a chosen image.

String trimming is modelled with each language's own whitespace set, in module `Text`:

- Python's `str.strip()` uses `IsPySpace`.
- JavaScript's `String.prototype.trim` and `\s` use `IsJsSpace`.

The two sets differ, and lemmas show where this matters.

Two behaviours of the code that are easy to miss, both modelled as written:

- `logout` has no `login_required` guard, so an anonymous visitor is simply redirected with the logged-out notice.
- Search folds ASCII letter case, because it relies on SQLite's `LIKE`; other letters must match exactly.

## Model

| member | source | states |
|---|---|---|
| Text.Trim | app.py:180 | the stripped text is a contiguous infix of the input |
| Text.TrimMeaning | app.py:180 | `strip()` / `trim()` removes only whitespace at either end, the ends of the result are not whitespace, and the result is empty exactly when the input is all whitespace |
| Text.TrimSplit | app.py:180 | the input is the removed leading whitespace, then the stripped text, then the removed trailing whitespace |
| Text.TrimStart | app.py:180 | dropping leading whitespace leaves a suffix that starts with a non-space |
| Text.TrimEnd | app.py:180 | dropping trailing whitespace leaves a prefix that ends with a non-space |
| Text.AsciiLower | app.py:181 | `lower()` maps each ASCII upper-case letter to its lower-case form and leaves every other character unchanged, position by position |
| Text.NatToDecimal | app.py:143 | the numeral a count renders as in an f-string is non-empty digits, without a leading zero, whose decimal value is the count |
| Uploads.LastIndexOf | app.py:25 | `rsplit('.', 1)` splits at the last dot: the index found holds the dot and no dot follows it; there is none exactly when the name has no dot |
| Uploads.Extension | app.py:25 | defines `rsplit('.', 1)[1]`: the text after the last dot; `ExtensionAt` gives its meaning |
| Uploads.AllowedFile | app.py:24-25 | defines `allowed_file`; `AllowedFileMeaning` states it over positions in the name |
| Uploads.ExtensionAt | app.py:25 | the extension is the text after the last dot |
| Uploads.AllowedFileMeaning | app.py:21-25 | a name is allowed exactly when it has a dot and the lower-cased text after its last dot is png, jpg, jpeg or gif |
| Uploads.AllowedFileAcceptsUpperCase | app.py:25 | `x.PNG` is accepted: the extension is lower-cased before the lookup |
| Uploads.AllowedFileRefusesBareExtension | app.py:24 | `png` is refused: a name must contain a dot |
| Uploads.AllowedFileRefusesTrailingDot | app.py:25 | `a.` is refused: the empty extension is not allowed |
| Uploads.AllowedFileRefusesInnerExtension | app.py:25 | `pic.png.exe` is refused: only the text after the last dot counts |
| Uploads.StoredImagePath | app.py:287-298 | a post records an image path exactly when an allowed file was uploaded, and then it is `uploads/` + the time stamp + the sanitised name |
| Uploads.EditedImagePath | app.py:395-405 | an edit keeps the existing image path unless an allowed file is uploaded, which replaces it |
| TimeAgo.Normalize | app.py:139 | the difference of two datetimes, as a `timedelta`, has seconds in 0..86399 and microseconds in 0..999999, and the three parts add back to the difference exactly |
| TimeAgo.TimeAgo | app.py:128-151 | `time_ago` itself on two instants: whatever they are, a count is at least 1, hours are at most 23 and minutes at most 60; `TimeAgoBuckets` gives the buckets |
| TimeAgo.Render | app.py:143-151 | the four f-strings; the text is "Just now" exactly for the "Just now" answer |
| TimeAgo.RenderInjective | app.py:143-151 | two answers with the same text are the same answer, so the text shows the bucket and the count |
| TimeAgo.TimeAgoBuckets | app.py:128-153 | for a past time: "Just now" below 61 s, minutes from 61 s to 3600 s, hours from 3601 s up to a day, days after that; the count is the elapsed time truncated to whole units (minutes 1..60, hours 1..23) |
| TimeAgo.TimeAgoBoundaries | app.py:142-150 | the strict comparisons: exactly one hour reads "60 minutes ago", one hour and one second "1 hours ago", 60 s "Just now", 61 s "1 minutes ago", one day "1 days ago" |
| TimeAgo.FutureTimestampWrapsToDay | app.py:139-150 | for a time in the future, the negative day count is ignored, so the answer is the one for the difference taken modulo a day |
| TimeAgo.FutureTimestampReadsHoursAgo | app.py:139-146 | a time five minutes in the future is reported as the text "23 hours ago" |
| TimeAgo.TimeAgoClamped | app.py:128-153 | agrees with `time_ago` on every past time |
| TimeAgo.TimeAgoClampedNeverOverstates | app.py:128-153 | the corrected filter never claims more time has passed than really has |
| Schema.First | app.py:249 | `fetchone()`: no row when none satisfies the `WHERE`, otherwise a row of the table that satisfies it |
| Schema.Filter | app.py:362 | a `WHERE` clause keeps exactly the rows that satisfy it, each as often as in the table, and every row when all satisfy it |
| Schema.NewestFirstCons | app.py:170 | a row no newer than the head of a newest-first list may be put in front of it |
| Schema.InsertNewestFirst | app.py:170 | inserting one row into a newest-first list keeps it newest first and adds exactly that row |
| Schema.SortNewestFirst | app.py:170 | `ORDER BY created_at DESC` yields the same rows (as a multiset), newest first |
| Schema.UserById | app.py:169 | the join finds a user exactly when one with that id exists |
| Schema.JoinAuthors | app.py:166-171 | the inner join pairs each post with its author's name and drops posts whose author is missing |
| Schema.JoinCommenters | app.py:342-348 | the inner join pairs each comment with its writer's name and drops comments whose writer is missing |
| Schema.JoinAuthorsCounts | app.py:166-169 | the inner join holds a post's row as many times as the table holds the post, when its author exists, and never otherwise |
| Schema.JoinCommentersCounts | app.py:342-346 | the inner join holds a comment's row as many times as the table holds the comment, when its writer exists, and never otherwise |
| Schema.Like | app.py:478-480 | defines SQLite's `LIKE`: `%` matches any run of characters, `_` any one character, and ASCII letters match in either case; its meaning is proved by the three lemmas below |
| Schema.LikeAnything | app.py:480 | the pattern `%` matches every text |
| Schema.LikePrefix | app.py:480 | a pattern `q%` with no wildcards in `q` matches exactly the texts that start with `q`, ignoring ASCII case |
| Schema.LikeSomeSuffix | app.py:480 | a leading `%` matches when some suffix of the text matches the rest of the pattern |
| Schema.LikeContains | app.py:478-480 | for a query without wildcards, `LIKE '%q%'` holds exactly when the text contains the query, ignoring ASCII case |
| Schema.SearchMatch | app.py:478-480 | defines the search condition: the title or the author's name is `LIKE '%q%'`; `LikeContains` gives its meaning |
| Schema.UpdateOwned | app.py:409-413 | the UPDATE rewrites only the row whose id and author both match, setting its title, content, image path and update time and keeping its id, author, creation time and likes; every other row is unchanged |
| Schema.DeleteOwned | app.py:438-439 | the DELETE removes exactly the rows whose id and author both match; every other row keeps its multiplicity |
| Schema.OwnedBlog | app.py:374-375 | the owner check finds a row exactly when one has both the id and the author |
| Schema.NonOwnerEditLeavesTable | app.py:409-413 | when no row belongs to the user, the UPDATE leaves the table unchanged |
| Schema.NonOwnerDeleteLeavesTable | app.py:438-439 | when no row belongs to the user, the DELETE leaves the table unchanged |
| Schema.OwnedRowIsUnique | app.py:374-375 | with distinct ids at most one row is the user's row with that id |
| Schema.DistinctIdsCons | app.py:49 | a row whose id differs from all others keeps the ids distinct |
| Schema.DeleteKeepsIdsDistinct | app.py:438-439 | deleting rows keeps the primary key unique |
| Schema.Liked | app.py:453 | on one row, `likes = likes + 1` adds one when the id matches and changes no other column |
| Schema.IncrementLikes | app.py:453 | the UPDATE applies that row change to every row and keeps the table's length |
| Schema.LikesOf | app.py:458-462 | defines `SELECT likes ... WHERE id = ?` with `fetchone()`: the likes of the first row with the id, or none; `LikesAfterIncrement` relates it to the update |
| Schema.LikesAfterIncrement | app.py:453-462 | after the increment, the count read back is one more than before, or there is none if no post has the id |
| Schema.LikesAfterLikes | app.py:453 | n likes raise the count by exactly n |
| Schema.InsertUserKeepsWellFormed | app.py:36-44 | inserting a user with a fresh id and an unused email keeps the users table's keys and the posts' authors valid |
| Schema.InsertBlogKeepsWellFormed | app.py:48-59 | inserting a post with a fresh id, zero likes and an existing author keeps the blogs table valid |
| Schema.UpdateKeepsWellFormed | app.py:409-413 | the owner's update keeps the blogs table valid |
| Schema.DeleteKeepsWellFormed | app.py:438-439 | the owner's delete keeps the blogs table valid |
| Schema.LikeKeepsWellFormed | app.py:453 | a like keeps the blogs table valid (ids unchanged, likes non-negative) |
| Schema.IndexRows | app.py:166-171 | the home page lists each post whose author exists as often as the table holds it, with the author's name, and nothing else, newest first |
| Schema.OwnBlogs | app.py:360-364 | "my blogs" lists each of the user's own posts as often as the table holds it, and nothing else, newest first |
| Schema.SearchRows | app.py:474-480 | search lists each joined post whose title or author name matches `%q%` as often as the table holds it, and nothing else, newest first |
| Schema.BlogRowById | app.py:327-332 | the post page finds the post with that id joined with its author, and nothing when there is no such joined post |
| Schema.CommentRows | app.py:342-348 | each comment on the post whose writer exists is shown as often as the table holds it, with the writer's name, and nothing else, newest first |
| App.NormalizeEmail | app.py:181 | defines `strip().lower()` on the email, used by sign-up and by login (app.py:239) |
| App.UserByEmail | app.py:204 | finds a user with the email exactly when one exists |
| App.SignupRejection | app.py:180-210 | sign-up passes exactly when name, normalised email and password are non-empty, the confirmation matches, the password has at least 6 characters and the email is unused; each notice is given exactly when its check is the first to fail, in the order blank fields, mismatched confirmation, short password, email already registered |
| App.SecondSignupRejected | app.py:204-217 | after a successful sign-up, any later sign-up whose email normalises the same way is refused, and one whose other fields pass is refused as "Email already registered" |
| App.BlogApp.constructor | app.py:28-79 | a fresh database: empty tables, no session, invariant established |
| App.BlogApp.Signup | app.py:176-232 | on a rejection nothing is stored and the form is shown again with the notice; otherwise one user is appended with the next id, the stripped name, the normalised email and the hash (never the plain password), and the visitor is sent to the login page |
| App.BlogApp.CheckPasswordHash | app.py:253 | defines `check_password_hash` as "the hash of the password is the stored hash" |
| App.BlogApp.Login | app.py:235-262 | missing credentials are refused; a user with the normalised email whose hash matches the password gets a session holding their id and name; any other case leaves the session alone with "invalid email or password" |
| App.BlogApp.Logout | app.py:265-270 | the session is cleared and the visitor redirected home, signed in or not |
| App.BlogApp.InsertUser | app.py:215-216 | the INSERT appends exactly the new user row and advances the id counter, keeping the invariant |
| App.BlogApp.WriteBlog | app.py:273-320 | behind `login_required`, an anonymous visitor is sent to log in and nothing changes; a blank stripped title or content stores nothing; otherwise one post with the next id, the stripped text, the image path, the session's user as author and zero likes is appended and shown |
| App.BlogApp.InsertBlog | app.py:304-307 | the INSERT appends exactly the new post row and advances the id counter, keeping the invariant |
| App.BlogApp.EditBlogForm | app.py:369-381 | the edit form is shown only for a post whose id and author match the session; otherwise back to "my blogs" |
| App.BlogApp.EditBlog | app.py:369-419 | anonymous, not the owner, or blank fields change nothing; otherwise only the owner's row gets the new title, content, image path and update time |
| App.BlogApp.UpdateBlog | app.py:409-413 | the UPDATE leaves the table as the owner-only update describes, keeping the invariant |
| App.BlogApp.DeleteBlog | app.py:426-445 | only the owner's row is deleted; a non-owner changes nothing and is told so |
| App.BlogApp.LikeBlog | app.py:448-462 | any signed-in user adds one like to the post; the answer is the new count, or 0 for a missing post |
| App.BlogApp.Index | app.py:162-173 | every post appears on the home page with its author's name |
| App.BlogApp.ViewBlog | app.py:323-352 | a redirect to the home page happens exactly when no post has the id; otherwise the post and its comments are shown |
| App.BlogApp.MyBlogs | app.py:355-366 | a signed-in user sees their own posts; an anonymous visitor is sent to log in |
| App.BlogApp.Search | app.py:465-484 | a query that strips to nothing redirects home; any other query lists the matching posts |
| Script.CheckPasswordStrength | static/js/script.js:174-190 | the score is the number of the five criteria met and the feedback lists the hints of those missed, in order |
| Script.CriteriaInOrder | static/js/script.js:174-190 | the five tests in source order add up to the criteria count and hint list |
| Script.Tally | static/js/script.js:177-178 | one test adds a point when the criterion is met and pushes its hint otherwise |
| Script.ScoreSnoc | static/js/script.js:174-190 | scoring one more criterion adds its point or its hint |
| Script.ScorePlusFeedback | static/js/script.js:174-190 | the score plus the number of hints equals the number of criteria |
| Script.FeedbackNamesMissed | static/js/script.js:174-190 | the feedback names a criterion exactly when the password misses it |
| Script.FeedbackOmitsOthers | static/js/script.js:174-190 | the feedback names only criteria that were checked |
| Script.HintsComeFrom | static/js/script.js:174-190 | every hint in the feedback is the hint of a checked criterion |
| Script.StrengthRange | static/js/script.js:174-190 | the score is at most 5, and it is 5 exactly when there is no feedback |
| Script.StrengthLabel | static/js/script.js:192-195 | defines `strengthLevels[strength] \|\| 'Very Weak'`; the first finding below is about it |
| Script.StrengthColor | static/js/script.js:193-196 | defines `strengthColors[strength] \|\| '#ef4444'` |
| Script.StrengthText | static/js/script.js:195-199 | defines the indicator's text: the label, then the missed criteria joined with commas when there are any |
| Script.FullStrengthShownVeryWeak | static/js/script.js:192-200 | a password meeting all five criteria is shown as plain "Very Weak" in the weakest colour |
| Script.StrongExample | static/js/script.js:177-189 | `Abcdef1!` meets all five criteria |
| Script.IntendedLabelMonotone | static/js/script.js:192 | with the lookup capped at the last level, a higher score never shows a weaker label |
| Script.LabelNotMonotone | static/js/script.js:195 | as written, score 5 shows a weaker label than score 4 |
| Script.PatternHasShape | static/js/script.js:145 | a match of the e-mail pattern has no whitespace, a single `@` that is not first, and a dot in the domain part that is neither right after the `@` nor last |
| Script.ShapeHasPattern | static/js/script.js:145 | any text of that shape matches the pattern |
| Script.EmailPatternMeaning | static/js/script.js:145 | the pattern matches exactly the texts of that shape |
| Script.EmailPatternExamples | static/js/script.js:145 | `a@x.com` matches and `a@x` does not |
| Script.FieldCheck | static/js/script.js:130-161 | "required" is reported exactly for a required field that is all whitespace; an e-mail error only for an e-mail field whose non-blank trimmed value fails the pattern; a length error only for a password-type input named `password` whose trimmed value has 1 to 5 characters; a passing field satisfies each rule |
| Script.ValidateInput | static/js/script.js:130-161 | a passing required field has a non-space character, and a passing non-blank e-mail has the pattern's shape; only required, e-mail or password fields can fail, and a plain field passes exactly when it is optional or not blank |
| Script.BlankOptionalFieldPasses | static/js/script.js:138-158 | an optional field left blank always passes |
| Script.FirstWhere | static/js/script.js:477 | finds the first whitespace character, or reports that there is none |
| Script.SpaceRunEnd | static/js/script.js:477 | the separator `\s+` is a maximal run of whitespace |
| Script.RunStartsWord | static/js/script.js:477 | a word followed by more text counts once, and only if it follows whitespace |
| Script.RunStartsSpaces | static/js/script.js:477 | leading whitespace adds no words |
| Script.RunStartsTrailingSpaces | static/js/script.js:476 | trailing whitespace adds no words |
| Script.RunStartsStep | static/js/script.js:477 | a word, a whitespace run and the rest: the word counts once if non-empty |
| Script.SplitOnSpace | static/js/script.js:477 | defines `split(/\s+/)`: the pieces between maximal whitespace runs; `SplitCountsRuns` counts its non-empty pieces |
| Script.WordCount | static/js/script.js:476-477 | defines the word count on the trimmed text, 0 when it is empty; `WordCountIsRuns` gives its meaning |
| Script.NonEmptyCountCons | static/js/script.js:477 | the filter counts a piece exactly when it is non-empty |
| Script.SplitHead | static/js/script.js:477 | the first piece of the split is the text before the first whitespace run |
| Script.RunStartsHead | static/js/script.js:477 | a leading word and the whitespace after it count one word exactly when the word is non-empty |
| Script.SplitCountsRuns | static/js/script.js:477 | splitting on `\s+` and dropping empty pieces leaves exactly one piece per maximal run of non-whitespace |
| Script.WordCountIsRuns | static/js/script.js:476-477 | the word count is the number of maximal non-whitespace runs of the text (0 for a blank text) |
| Script.WordDisplayFacts | static/js/script.js:476-478 | the word count never exceeds the trimmed character count |
| Script.WordsFitInCharacters | static/js/script.js:477 | there are never more pieces than characters |
| Script.RunStartsAtMostLength | static/js/script.js:477 | there are never more words than characters |
| Script.CountColorFor | static/js/script.js:481-487 | red below 50 words, amber from 50 to 99, green from 100 |
| Script.UpdateWordCount | static/js/script.js:475-488 | the word count shown is the number of maximal non-whitespace runs; the character count is the trimmed length, at most the raw length and never below the word count; the colour is the one the word count earns |
| Script.SubmitCancelled | static/js/script.js:310-311 | defines the submit guard: the trimmed query is empty |
| Script.AutoSearchFires | static/js/script.js:296 | defines the debounced guard: the untrimmed query has at least three characters |
| Script.AutoSearchOnTrimmedQuery | static/js/script.js:296 | a query whose trimmed text has at least three characters starts the auto-search |
| Script.AutoSearchSendsBlankQuery | static/js/script.js:296-315 | three spaces start the auto-search, although the submit guard would cancel them and the server strips them to nothing and redirects home |
| Script.SubmitCancelledMeaning | static/js/script.js:309-315 | a search submission is cancelled exactly when the query is all whitespace |
| Script.BlankQueryGuardsAgree | static/js/script.js:310-311 | when the query holds no character that only one side counts as whitespace, the browser cancels exactly the queries the server would redirect |
| Script.BlankQueryGuardsDiffer | static/js/script.js:310-311 | U+001C is sent by the browser yet stripped to nothing by the server |
| Script.CheckImage | static/js/script.js:331-346 | no file does nothing; over 5 MiB (5242880 bytes) is rejected first; otherwise a type not starting with `image/` is rejected; everything else is previewed; the input is cleared exactly on a rejection |

## Left out

- Password hashing: `generate_password_hash`/`check_password_hash` are an uninterpreted function that never returns its input. The random salt is not modelled, so checking is "hash equals stored".
- `secure_filename` is an uninterpreted function. `file.save`, the upload folder and `MAX_CONTENT_LENGTH` are file-system and request-size I/O and are not modelled.
- The clock: `datetime.now()` and `CURRENT_TIMESTAMP` are parameters (`now`, `stamp`). Timestamps are integers (microseconds in `TimeAgo`). The difference between the database's UTC time and the server's local time is not modelled.
- `time_ago`: the string parsing with `fromisoformat` and the fallback `except` branch (parse failures) are not modelled.
- `format_date` and `format_date_short` are date formatting and are not modelled. `inject_current_year` reads the clock and is not modelled either.
- Templates, `flash` storage, `jsonify` and HTTP encoding are not modelled. A handler returns a `Response` naming the page and the notice.
- The GET forms of `/signup`, `/login` and `/write` only render a template and are not modelled.
- Comments: the site has no handler that creates comments, so the comments table is only read, by `CommentRows`.
- Concurrency between requests and database connections is not modelled. Each handler is one atomic step.
- Schema.SortNewestFirst: the order among rows with equal `created_at` is left open. SQLite does not fix it either.
- Text.AsciiLower: Python's `str.lower()` is modelled for ASCII letters only. Other characters are unchanged.
- App.NormalizeEmail: because it uses `AsciiLower`, addresses differing only in the case of a non-ASCII letter ("Ä@x.de" and "ä@x.de") stay distinct. The program folds them into one account, so the model's `email UNIQUE` is finer than the program's for such addresses.
- App.BlogApp.Valid: the session is trusted to name an existing user. The session is a cookie signed with a fixed `SECRET_KEY` (app.py:10). A cookie kept across a database reset, or one forged with that key, can name a missing user. `write_blog` (app.py:304-307) then stores a post whose author does not exist. The inner joins of `index` and `view_blog` (app.py:166-171, 327-332) hide that post, so the author is told "Blog not found" right after publishing. The model excludes that state, and `Index`'s "every post appears" and `ViewBlog`'s redirect condition rely on the exclusion.
- Script: JavaScript's `length` counts UTF-16 code units. The model counts characters, so the two differ for characters outside the Basic Multilingual Plane.
- Script: the DOM work of the script (creating indicators, notifications, the image preview, `fetch`, the debounce timer, the rest of its UI code) is not modelled. Its functions return what would be displayed or decided.
- The entry points and scripts `run.py`, `init_db.py`, `count_users.py` and `view_data.py` are not part of this model.

## Findings

| source | as written | input that shows it | evidently intended | confidence | as-written member | corrected member |
|---|---|---|---|---|---|---|
| static/js/script.js:195-196 | `strengthLevels[strength] \|\| 'Very Weak'` with five levels indexed by a score of 0..5 | `Abcdef1!` scores 5, one past the last level, and is shown as "Very Weak" in red | the strongest password shows "Strong" | not executed; high | Script.FullStrengthShownVeryWeak | Script.IntendedLabelMonotone |
| app.py:139-146 | `diff.days > 0` and then `diff.seconds` alone, with no check for a negative difference | a post time 300 s after `now` (for instance when the database's UTC clock is ahead of the local clock) gives `days == -1`, `seconds == 86100`: "23 hours ago" | a time in the future reads "Just now" | not executed; medium | TimeAgo.FutureTimestampReadsHoursAgo | TimeAgo.TimeAgoClampedNeverOverstates |
