# Social media service: collection handlers in Dafny

This project models the data logic of a small social-content service. Its
Express handlers in `index.js` each read a whole collection, apply one
deterministic rule, and write the whole collection back. There are two
collections: users and posts. Each handler is modelled here as one pure step
over a `seq<User>` or `seq<Post>`. The step yields the response (`Result`:
`Ok(value)` or `Err(error)`) and the collection written back (`Step`). Read-only
handlers yield the response alone.

Modules:

- `Seqs` (`seqs.dfy`) holds the JavaScript array methods the handlers rely on.
  `Any` is `some`. `FirstIndex` is `find`, returning the position of the first
  match, because `find` hands back that object and the handler mutates it in
  place inside the array. `Filter` is `filter`. The module also has lemmas on
  the order and contents of `Filter`.
- `Records` (`records.dfy`) holds the user, post and comment records, the roles
  `"user"` and `"admin"`, the error kinds, `Result` and `Step`.
- `Users` (`users.dfy`) holds the duplicate check, registration and login. It
  also has the uniqueness invariant on email and mobile, and a lemma that
  connects registration to login.
- `Posts` (`posts.dfy`) holds creation, the visibility listing, adding a
  comment, the owner-only edit, the owner-or-admin delete and the like toggle.
  It has frame lemmas (nothing else changes), order lemmas and the
  double-toggle laws.

Collaborators that cannot be modelled become parameters:

- A fresh id from `uuidv4` is a caller-supplied string. This applies to user,
  post and comment ids.
- `bcrypt.hash` is replaced by the hash the caller passes to `Register`.
- `bcrypt.compare` is the parameter `compare(plain, hash)` of `Login`.

Behaviours of the code that the model keeps as written:

- Likes are an array, not a set. Unliking removes every occurrence of the user
  id, and liking appends at the end. The double-toggle laws are therefore
  proved under the invariant that likes hold no duplicates. Every post
  operation is proved to preserve that invariant, and an empty collection
  meets it. Without the invariant the laws fail: two toggles turn likes
  `["u", "u"]` into `["u"]` (`Posts.ToggleTwiceNeedsDistinctLikes`).
- Deletion checks permission against the first post with the id only. It then
  removes every post carrying that id. When ids are unique, exactly that one
  post is removed (`Posts.DeleteWithUniqueIds`).
- Registration answers with a confirmation only, not with the new id
  (`Step<(), User>`).
- The listing reads `isPublic`, but no handler ever sets it. A created post
  therefore has `isPublic == false`, which is how an absent field is read.

## Model

| member | source | states |
|---|---|---|
| Seqs.Any | index.js:31 | `some` holds exactly when some element satisfies the predicate |
| Seqs.FirstIndex | index.js:86 | `find` yields nothing exactly when no element matches; otherwise it yields the first matching position |
| Seqs.Filter | index.js:121 | `filter` keeps each element that passes, as often as it occurs, and drops every element that fails |
| Seqs.FilterAppend | index.js:78 | filtering distributes over concatenation, so the result keeps stored order |
| Seqs.FilterDropsOne | index.js:121 | when exactly one position fails the predicate, filtering removes that position and keeps the rest in order |
| Users.IsDuplicate | index.js:29-32 | the duplicate check is true exactly when some stored user has the same email or the same mobile |
| Users.Register | index.js:34-48 | registration fails with the duplicate error and changes nothing exactly when the email or mobile is taken; otherwise it appends one user at the end with the given id, name, email and mobile, the hashed password, role "user" and empty followers and following |
| Users.Login | index.js:50-61 | login fails when no user has the email; otherwise it judges only the first user with that email, succeeding with that user's role exactly when the password matches the stored hash |
| Users.RegisterKeepsKeysUnique | index.js:37-46 | registration keeps emails unique and mobiles unique across the collection |
| Users.RegisterTwiceSameEmail | index.js:37-39 | a second registration with an already registered email is refused and adds no record |
| Users.LoginJudgesTheOwner | index.js:53-60 | when keys are unique, login with a user's email succeeds with that user's role exactly when that user's password check holds |
| Users.RegisterThenLogin | index.js:41-60 | a user who has just registered logs in with the password whose hash was stored and receives role "user" |
| Posts.FindPost | index.js:86 | finding a post by id yields nothing exactly when no post has that id, and otherwise yields the first post with it |
| Posts.RemoveAll | index.js:138 | unliking leaves no occurrence of the user and keeps every other like, with the same multiplicity |
| Posts.RemoveAllKeepsOrder | index.js:138 | unliking keeps the remaining likes in stored order: it works part by part on a concatenation and keeps a single like exactly when it belongs to someone else |
| Posts.CreatePost | index.js:63-71 | creating a post always succeeds; the collection becomes the old one plus one post at the end, with the fresh id, the owner, title and description, and no comments, likes or public flag |
| Posts.ListVisible | index.js:73-80 | the listing holds exactly the stored posts that the requester owns or that are public, each as often as stored |
| Posts.ListVisibleAppend | index.js:78 | the listing keeps stored order: listing a concatenation lists each part in turn |
| Posts.CreateThenList | index.js:65-78 | a created post appears at the end of its owner's listing, after everything listed before |
| Posts.AddComment | index.js:82-94 | adding a comment fails with not-found and changes nothing exactly when no post has the id; otherwise only the first such post changes, by one comment with the author and text and no replies at the end of its comments |
| Posts.AddCommentTwiceKeepsOrder | index.js:85-91 | two comments added in turn follow the post's earlier comments in the order they were added |
| Posts.EditPost | index.js:96-109 | editing fails with permission denied and changes nothing exactly when no post has both the id and the requester as owner; otherwise only the title and description of the first such post change, and the updated post is returned |
| Posts.EditByNonOwnerChangesNothing | index.js:100-102 | an edit by someone who owns no post with that id is refused and leaves the collection as it was |
| Posts.WithoutId | index.js:121 | the survivors of a deletion are exactly the posts with another id, each as often as stored |
| Posts.DeletePost | index.js:111-125 | deletion is refused without change when no post has the id; when the first post with the id is owned by someone else and the role is not "admin", it is refused too; otherwise it succeeds and removes every post with the id |
| Posts.WithoutIdAppend | index.js:121 | deletion keeps the surviving posts in stored order |
| Posts.DeleteWithUniqueIds | index.js:114-122 | when ids are unique, a permitted deletion removes exactly the post at its position and keeps the others in order |
| Posts.DeleteThenList | index.js:114-122 | after a permitted deletion no listing shows a post with that id; after a refused one every listing is unchanged |
| Posts.Toggled | index.js:135-139 | the toggle flips the user's membership in the likes and keeps the multiplicity of every other like; a user who had not liked the post is appended at the end, and a user who had is removed by the order-keeping unlike |
| Posts.ToggleLike | index.js:127-143 | the toggle fails with not-found and changes nothing exactly when no post has the id; otherwise only the likes of the first such post change, and it returns the new number of likes |
| Posts.UnlikeWithDistinctLikes | index.js:138 | with no duplicate likes, unliking removes exactly the user's single entry and keeps the others in order |
| Posts.ToggleKeepsLikesDistinct | index.js:135-139 | the toggle keeps every post's likes free of duplicates |
| Posts.CreateKeepsLikesDistinct | index.js:65-68 | creating a post keeps every post's likes free of duplicates |
| Posts.AddCommentKeepsLikesDistinct | index.js:85-91 | adding a comment keeps every post's likes free of duplicates |
| Posts.EditKeepsLikesDistinct | index.js:99-106 | editing keeps every post's likes free of duplicates |
| Posts.DeleteKeepsLikesDistinct | index.js:114-122 | deleting keeps every post's likes free of duplicates |
| Posts.ToggleTwiceNeedsDistinctLikes | index.js:135-139 | without that invariant two toggles do not restore the count: likes ["u", "u"] become ["u"] |
| Posts.LikeThenUnlike | index.js:135-139 | liking then unliking restores the likes exactly |
| Posts.UnlikeThenLike | index.js:135-139 | with no duplicates, unliking then liking moves the user's entry to the end |
| Posts.ToggledTwice | index.js:135-139 | with no duplicates, two toggles restore the number of likes and who likes the post, and restore the likes exactly when the user was absent |
| Posts.ToggleTwice | index.js:130-142 | with no duplicate likes, two toggles on the same post restore its like count and its likers and leave every other post untouched; when the user had not liked it, they restore the whole collection |

## Left out

- `readJSON` and `writeJSON` (index.js:16-27) are left out because they are file I/O and JSON serialisation. Each step receives the collection that `readJSON` yields. That is the stored records, or the empty sequence when the file is missing or malformed. Each step yields the collection that `writeJSON` stores. A failed write is not modelled.
- Express routing, CORS, body parsing, response status codes and `app.listen` (index.js:1-11, 145-147) are framework plumbing. The four failure responses are the `Error` kinds (400, 401, 404 and 403).
- Password hashing is foreign cryptography. `bcrypt.hash` becomes the hash passed to `Users.Register`, and `bcrypt.compare` becomes the `compare` parameter of `Users.Login`.
- `uuidv4` is randomness. Fresh ids are arguments, and their freshness is not assumed except where a lemma states it as a requirement (`Posts.DeleteWithUniqueIds`).
- Concurrency is not a sequential property, so each handler is modelled as one atomic step. This covers interleaved handlers and lost updates. It also covers registration, which reads the users collection twice (index.js:30 and index.js:44) with a race between the reads.
- JavaScript's dynamic typing is not modelled. Records with missing fields, non-string values and `undefined` request fields are outside the model. Every field is present and strings compare by value. An absent `isPublic` is read as false.
