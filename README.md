# Blog post routes — a Dafny model

This project models the post routes of a small blogging backend
(`routes/posts.js`): list all posts, get one post, create a post, update a
post and delete a post. The routes work on two pieces of state:

- a **post collection**, a map from post id to a post record (`title`,
  `content`, `author`, `userId`, `tags`, `imageUrl`, `imagePublicId`,
  `createdAt`);
- an **image service**, the set of image handles it currently holds plus the
  log of every `destroy` call made on it.

Each handler is one sequential step over that state. Everything it learns
from outside is a parameter: the authenticated user `(uid, name, email)`,
the uploaded file `(path, filename)` if any, whether the store's `save`
succeeds, and the creation time.

`tags.dfy` (module `Tags`) is the pure part: the tag parsing `split(',')`
followed by `trim()`, with its inverse `Join`. The proofs show that one tag
comes out per comma plus one, that no tag has surrounding whitespace, that
empty pieces are kept, that `Split` and `Join` are inverses in both
directions, and that parsing re-joined tags gives the same tags back.

`posts.dfy` (module `Posts`) has the request and record datatypes and two
specification functions. `NewPost` is the record create builds. `Merged` is
the record an owner's update saves. The class `Blog` holds the state, and its
methods are the five handlers. The object invariant `Valid()` says that every
stored post is filed under its own id and that every stored post's image url
and handle are both present or both absent. Every handler preserves it.

Three behaviours of the code worth knowing, each stated by the model:

- Update does not release a freshly uploaded file on the 404 and 403 paths.
  The handler returns before its `catch` (routes/posts.js:74-81), so the
  file the upload middleware already stored stays live on the image
  service. `Blog.Update` states this.
- On an owner's update with a file, the upload middleware stores the new
  file first, and the handler then destroys the old handle
  (routes/posts.js:88-94). If the save then fails, the `catch` destroys the
  new handle too (routes/posts.js:98-101). The stored record keeps the old
  handle, which has already been destroyed. `Blog.Update` states this case
  explicitly.
- An empty `tags` field gives `[]` on create but keeps the stored tags on
  update. An empty `title` or `content` keeps the stored value on update.

## Model

| member | source | states |
|---|---|---|
| Tags.Split | routes/posts.js:48 | `split(',')` yields at least one piece and no piece contains the separator |
| Tags.SplitCount | routes/posts.js:48 | the number of pieces is the number of commas plus one (empty pieces kept) |
| Tags.JoinSplit | routes/posts.js:48 | joining the pieces with the separator gives back the input: splitting loses nothing |
| Tags.SplitJoin | routes/posts.js:48 | splitting the join of separator-free pieces gives back exactly those pieces |
| Tags.TrimStart | routes/posts.js:48 | the result is no longer than the input and does not start with whitespace |
| Tags.TrimStartDrops | routes/posts.js:48 | `trimStart()` keeps a suffix of the input and everything it drops is whitespace |
| Tags.TrimEnd | routes/posts.js:48 | the result is no longer than the input and does not end with whitespace |
| Tags.TrimEndDrops | routes/posts.js:48 | `trimEnd()` keeps a prefix of the input and everything it drops is whitespace |
| Tags.Trim | routes/posts.js:48 | `trim()` leaves neither end whitespace and introduces no character absent from the input |
| Tags.TrimUnique | routes/posts.js:48 | any result of stripping a whitespace prefix and suffix whose ends are not whitespace is the `trim()` of the input: with TrimStrips this determines `trim()` |
| Tags.TrimStrips | routes/posts.js:48 | `trim()` removes exactly a whitespace prefix and a whitespace suffix and keeps the middle unchanged |
| Tags.ParseTags | routes/posts.js:48 | an empty field gives no tags; otherwise one tag per comma plus one, each the trimmed piece, none with surrounding whitespace or a comma |
| Tags.TagsRoundTrip | routes/posts.js:48 | re-joining parsed tags with commas and parsing again gives the same tags, except for a lone empty tag |
| Tags.ParseTwoPieces | routes/posts.js:48 | a field with a single comma parses to exactly two tags, the trimmed text on each side |
| Tags.ParseCommaSpace | routes/posts.js:48 | a field made of one character, a comma, a space and another character (such as `"a, b"`) parses to the two one-character tags: the space is trimmed away |
| Tags.ParseCommaSpaceExample | routes/posts.js:48 | the field `"a, b"` parses to the tags `"a"` and `"b"` |
| Posts.NewPost | routes/posts.js:43-54 | author is the display name when non-empty, else the email; owner is the caller's uid; tags are `ParseTags` of the field (none for an empty field, one trimmed tag per comma plus one otherwise); url and handle set together exactly when a file was uploaded |
| Posts.Merged | routes/posts.js:83-94 | id, owner, author and creation time never change; an empty title, content or tags keeps the stored value and a non-empty one replaces it; a file replaces url and handle together; pairing of url and handle is kept |
| Posts.BodyAuthorIgnored | routes/posts.js:71-85 | an `author` field in the request body changes neither the created nor the updated record |
| Posts.NewestExists | routes/posts.js:13 | a non-empty set of stored posts has a most recent one, which the listing takes next |
| Posts.ListStepOnce | routes/posts.js:13 | taking one more post into the listing keeps every listed post a stored one, listed once |
| Posts.Blog.List | routes/posts.js:10-18 | answers 200 with every stored post exactly once, in order of creation time, most recent first |
| Posts.Blog.Get | routes/posts.js:21-32 | answers 200 with the stored post, or 404 "Post not found" when the id is not stored |
| Posts.Blog.Receive | routes/posts.js:38 | the upload middleware adds the file's handle to the image service before the handler runs |
| Posts.Blog.Destroy | routes/posts.js:62 | a destroy call removes the handle from the image service and is appended to the call log |
| Posts.Blog.Create | routes/posts.js:38-66 | a successful save stores `NewPost` under a fresh id and answers 201; a failed save stores nothing, destroys the uploaded handle exactly once and answers 400; the invariant is kept |
| Posts.Blog.Update | routes/posts.js:69-104 | unknown id gives 404, and a caller other than the owner gives 403; on both the posts and the destroy log are unchanged and the new upload stays live. For the owner, a file destroys the old handle if present; a successful save stores `Merged` (200); a failed save leaves the record, destroys the new handle too (400) and leaves the record pointing at a destroyed handle |
| Posts.Blog.SaveEdit | routes/posts.js:83-103 | the owner's update: merged record saved, or on failure record unchanged and uploaded handle destroyed; destroy log and live handles stated exactly |
| Posts.Blog.ReplaceImage | routes/posts.js:88-94 | with a file, the stored handle (if non-empty) is destroyed once and url and handle are replaced together; without one, nothing changes |
| Posts.Blog.Delete | routes/posts.js:107-129 | unknown id gives 404, a non-owner 403, each with nothing changed; for the owner the image handle is destroyed once if present, exactly that post is removed and the answer is "Post deleted successfully" |
| Posts.ForeignCallerScenario | routes/posts.js:38-129 | a created post reads back with its title, content, tags and owner; another user's edit and delete answer 403 and the post still reads back unchanged |

## Left out

- Process wiring in `server.js` (Express, CORS origins, body parsers, the database connection, the catch-all 500 handler, the listener) and the identity-provider setup in `config/firebase.js`: they are configuration and I/O with no logic of their own.
- Token verification (`middleware/auth` is not part of this model): the authenticated user is a given input. The 401 path lives outside the route handlers.
- Upload mechanics (`config/cloudinary` and multer are not part of this model): an upload is an optional `(path, filename)` input that the model stores on the image service as the handler's first step. `destroy` is assumed to succeed, and its failure is not modelled. A failure of update's call on the stored handle (line 90) would reach the `catch` and answer 400. A failure inside a `catch` (create's line 62, update's line 100) escapes the handler: it reaches the server's error handler (a 500) or is an unhandled rejection. A failure on delete answers 500.
- The document store's internals (`models/Post` is not part of this model): schema validation is the `saveOk` input, malformed ids that fail the ObjectId cast (a 500 on get, and the `catch` paths on update and delete) are not modelled, ids come from a counter, and `createdAt` is supplied by the caller.
- Posts.Blog.Update: every body field is a string, so the `catch` path of a `tags` value that is not a string is not modelled. A JSON array or a repeated multipart field makes `tags.split` throw at line 86, before line 90. For the owner with a file, that answers 400 after destroying only the new upload, and the old image stays live and stored. `Update` reaches a 400 only through a failed save, which destroys both handles.
- Store failures on list, get and delete (the 500 answers at lines 16, 30 and 127) are not modelled; only the save of create and update can fail.
- Posts.Blog.List: the database sorts by `createdAt` descending; the model picks the most recent remaining post in a loop, and posts with equal `createdAt` may come in any order, as the query leaves them.
- Posts.NewPost: an absent body field and an empty one are both the empty string. Every branch of the handlers treats them alike (both are falsy), but create stores them verbatim, where the real record would lack the field rather than hold `""`.
- Concurrency: the async steps and the race between the ownership read and the write are not modelled; each handler is one atomic step.
- `console.log` output, the text of `error.message` (a failed save answers with the opaque `StoreError` body), and JSON serialisation beyond status plus payload.
