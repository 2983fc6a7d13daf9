/**
 The post routes of the blog backend: list, get, create, update and delete,
 over a post collection and an image-hosting service. Each handler is one
 sequential step; everything it would learn from the outside (the verified
 user, the uploaded file, whether the store's save succeeds, the creation
 time) is a parameter.
 */
module Posts {
  import Tags

  datatype Option<T> = None | Some(value: T)

  /** Store-generated post identifier. */
  type PostId = nat

  datatype Post = Post(
    id: PostId,
    title: string,
    content: string,
    author: string,
    userId: string,
    tags: seq<string>,
    imageUrl: Option<string>,
    imagePublicId: Option<string>,
    createdAt: int)

  /** The identity the authentication middleware attaches to the request;
      an absent display name is the empty string. */
  datatype User = User(uid: string, name: string, email: string)

  /** The text fields of the request body; an absent field is the empty
      string (both are falsy to the handlers). */
  datatype Form = Form(title: string, content: string, author: string, tags: string)

  /** The file the upload middleware stored on the image service before the
      handler ran: its public url and its deletion handle. */
  datatype Upload = Upload(path: string, filename: string)

  /** The JSON payload of a response; StoreError stands for the
      `{ message: error.message }` of a failed save. */
  datatype Body = OnePost(post: Post) | AllPosts(posts: seq<Post>) | Message(text: string) | StoreError

  datatype Response = Response(status: nat, body: Body)

  const NotFound := "Post not found"
  const ForbiddenEdit := "Forbidden: You are not authorized to edit this post"
  const ForbiddenDelete := "Forbidden: You are not authorized to delete this post"
  const Deleted := "Post deleted successfully"

  /** The image url and its deletion handle are both present or both absent. */
  predicate ImagePaired(p: Post) {
    p.imageUrl.Some? == p.imagePublicId.Some?
  }

  /** `if (post.imagePublicId)`: a handle is stored and is not empty. */
  predicate HasImage(p: Post) {
    p.imagePublicId.Some? && p.imagePublicId.value != ""
  }

  /** The handles an upload adds to the image service. */
  function Uploaded(file: Option<Upload>): set<string> {
    if file.Some? then {file.value.filename} else {}
  }

  /** The destroy call a failure path makes for the uploaded file, if any. */
  function ReleaseUpload(file: Option<Upload>): seq<string> {
    if file.Some? then [file.value.filename] else []
  }

  /** The destroy call made for a post's stored image, if it has one. */
  function ReleaseStored(p: Post): seq<string> {
    if HasImage(p) then [p.imagePublicId.value] else []
  }

  /** The handle a post's stored image is destroyed by, if it has one. */
  function StoredHandle(p: Post): set<string> {
    if HasImage(p) then {p.imagePublicId.value} else {}
  }

  /** The record the create handler builds: the author is the display name
      when there is one and the email otherwise, the owner is the caller,
      the tags are parsed from the field, a body-supplied author is ignored,
      and an image url and handle are set together exactly when a file was
      uploaded. */
  function NewPost(id: PostId, form: Form, user: User, file: Option<Upload>, now: int): (p: Post)
    ensures p.id == id && p.createdAt == now
    ensures p.title == form.title && p.content == form.content
    ensures p.userId == user.uid
    ensures p.author == (if user.name != "" then user.name else user.email)
    ensures p.tags == Tags.ParseTags(form.tags)
    ensures form.tags == "" ==> p.tags == []
    ensures form.tags != "" ==> |p.tags| == multiset(form.tags)[','] + 1
    ensures forall i :: 0 <= i < |p.tags| ==> Tags.Trimmed(p.tags[i])
    ensures ImagePaired(p)
    ensures HasImage(p) ==> file.Some?
    ensures file.Some? <==> p.imagePublicId.Some?
    ensures file.Some? ==> p.imageUrl == Some(file.value.path) && p.imagePublicId == Some(file.value.filename)
  {
    var image := if file.Some? then Some(file.value.path) else None;
    var handle := if file.Some? then Some(file.value.filename) else None;
    Post(id, form.title, form.content, if user.name != "" then user.name else user.email,
         user.uid, Tags.ParseTags(form.tags), image, handle, now)
  }

  /** The record the update handler saves: a non-empty field replaces the
      stored value and an empty one keeps it; an uploaded file replaces the
      image; identity, owner, author and creation time never change. */
  function Merged(p: Post, form: Form, file: Option<Upload>): (q: Post)
    ensures q.id == p.id && q.userId == p.userId && q.author == p.author && q.createdAt == p.createdAt
    ensures q.title == (if form.title != "" then form.title else p.title)
    ensures q.content == (if form.content != "" then form.content else p.content)
    ensures form.tags == "" ==> q.tags == p.tags
    ensures form.tags != "" ==> q.tags == Tags.ParseTags(form.tags)
    ensures file.None? ==> q.imageUrl == p.imageUrl && q.imagePublicId == p.imagePublicId
    ensures file.Some? ==> q.imageUrl == Some(file.value.path) && q.imagePublicId == Some(file.value.filename)
    ensures ImagePaired(p) ==> ImagePaired(q)
    ensures form.title == "" && form.content == "" && form.tags == "" && file.None? ==> q == p
  {
    var q := p.(title := if form.title != "" then form.title else p.title,
                content := if form.content != "" then form.content else p.content,
                tags := if form.tags != "" then Tags.ParseTags(form.tags) else p.tags);
    if file.Some? then
      q.(imageUrl := Some(file.value.path), imagePublicId := Some(file.value.filename))
    else q
  }

  /** An `author` field in the request body changes nothing: create takes
      the author from the caller's identity and update never writes it. */
  lemma BodyAuthorIgnored(id: PostId, p: Post, form: Form, author: string, user: User, file: Option<Upload>, now: int)
    ensures NewPost(id, form.(author := author), user, file, now) == NewPost(id, form, user, file, now)
    ensures Merged(p, form.(author := author), file) == Merged(p, form, file)
  {
  }

  /** Posts in order of creation time, most recent first. */
  ghost predicate NewestFirst(s: seq<Post>) {
    forall i, j :: 0 <= i < j < |s| ==> s[i].createdAt >= s[j].createdAt
  }

  /** `s` holds every post of `posts` exactly once, and nothing else. */
  ghost predicate ListsExactly(s: seq<Post>, posts: map<PostId, Post>) {
    && (forall i :: 0 <= i < |s| ==> s[i].id in posts && posts[s[i].id] == s[i])
    && (forall i, j :: 0 <= i < j < |s| ==> s[i].id != s[j].id)
    && (forall k :: k in posts ==> exists i :: 0 <= i < |s| && s[i].id == k)
  }

  /** Some post of a non-empty set of ids is at least as recent as all the others. */
  lemma {:induction false} NewestExists(posts: map<PostId, Post>, ids: set<PostId>)
    requires ids != {} && ids <= posts.Keys
    ensures exists k :: k in ids && forall j :: j in ids ==> posts[j].createdAt <= posts[k].createdAt
    decreases ids
  {
    var x :| x in ids;
    if ids - {x} != {} {
      NewestExists(posts, ids - {x});
      var k :| k in ids - {x} && forall j :: j in ids - {x} ==> posts[j].createdAt <= posts[k].createdAt;
      if posts[x].createdAt > posts[k].createdAt {
        assert forall j :: j in ids ==> posts[j].createdAt <= posts[x].createdAt;
      } else {
        assert forall j :: j in ids ==> posts[j].createdAt <= posts[k].createdAt;
      }
    } else {
      assert ids == {x};
    }
  }

  /** The state of the listing after some steps: `out` holds the posts
      whose ids are no longer in `remaining`, each once, newest first, and
      none of them older than a post still remaining. */
  ghost predicate ListedSoFar(posts: map<PostId, Post>, out: seq<Post>, remaining: set<PostId>) {
    ListedOnce(posts, out, remaining) && ListedInOrder(posts, out, remaining)
  }

  ghost predicate ListedOnce(posts: map<PostId, Post>, out: seq<Post>, remaining: set<PostId>) {
    && remaining <= posts.Keys
    && (forall i :: 0 <= i < |out| ==> out[i].id in posts && posts[out[i].id] == out[i] && out[i].id !in remaining)
    && (forall i, j :: 0 <= i < j < |out| ==> out[i].id != out[j].id)
    && (forall k :: k in posts && k !in remaining ==> exists i :: 0 <= i < |out| && out[i].id == k)
  }

  ghost predicate ListedInOrder(posts: map<PostId, Post>, out: seq<Post>, remaining: set<PostId>)
    requires remaining <= posts.Keys
  {
    && NewestFirst(out)
    && (forall i, k :: 0 <= i < |out| && k in remaining ==> out[i].createdAt >= posts[k].createdAt)
  }

  /** Moving the newest remaining post to the end of the listing keeps the
      listing's state. */
  lemma ListStep(posts: map<PostId, Post>, out: seq<Post>, remaining: set<PostId>, k: PostId)
    requires forall j :: j in posts ==> posts[j].id == j
    requires ListedSoFar(posts, out, remaining)
    requires k in remaining && forall j :: j in remaining ==> posts[j].createdAt <= posts[k].createdAt
    ensures ListedSoFar(posts, out + [posts[k]], remaining - {k})
  {
    ListStepOnce(posts, out, remaining, k);
    ListStepInOrder(posts, out, remaining, k);
  }

  lemma ListStepOnce(posts: map<PostId, Post>, out: seq<Post>, remaining: set<PostId>, k: PostId)
    requires forall j :: j in posts ==> posts[j].id == j
    requires ListedOnce(posts, out, remaining) && k in remaining
    ensures ListedOnce(posts, out + [posts[k]], remaining - {k})
  {
    var out', remaining' := out + [posts[k]], remaining - {k};
    assert posts[k].id == k;
    forall kk | kk in posts && kk !in remaining'
      ensures exists i :: 0 <= i < |out'| && out'[i].id == kk
    {
      if kk == k {
        assert out'[|out|].id == kk;
      } else {
        var i :| 0 <= i < |out| && out[i].id == kk;
        assert out'[i].id == kk;
      }
    }
  }

  lemma ListStepInOrder(posts: map<PostId, Post>, out: seq<Post>, remaining: set<PostId>, k: PostId)
    requires remaining <= posts.Keys && ListedInOrder(posts, out, remaining)
    requires k in remaining && forall j :: j in remaining ==> posts[j].createdAt <= posts[k].createdAt
    ensures ListedInOrder(posts, out + [posts[k]], remaining - {k})
  {
  }

  /** The post collection and the image-hosting service the routes work on. */
  class Blog {
    /** The stored posts, by id. */
    var posts: map<PostId, Post>
    /** The id the store gives the next post it saves. */
    var nextId: PostId
    /** The image handles the image service currently holds. */
    var liveImages: set<string>
    /** Every destroy call made on the image service, in order. */
    var destroyed: seq<string>

    ghost predicate Valid()
      reads this
    {
      forall k :: k in posts ==> posts[k].id == k && k < nextId && ImagePaired(posts[k])
    }

    constructor ()
      ensures Valid()
      ensures posts == map[] && nextId == 0 && liveImages == {} && destroyed == []
    {
      posts := map[];
      nextId := 0;
      liveImages := {};
      destroyed := [];
    }

    /** `upload.single('image')`: the middleware stores the file on the image
        service before the handler runs. */
    method Receive(file: Option<Upload>)
      modifies this`liveImages
      ensures liveImages == old(liveImages) + Uploaded(file)
    {
      if file.Some? {
        liveImages := liveImages + {file.value.filename};
      }
    }

    /** `cloudinary.uploader.destroy(handle)`, assumed to succeed. */
    method Destroy(handle: string)
      modifies this`liveImages, this`destroyed
      ensures liveImages == old(liveImages) - {handle}
      ensures destroyed == old(destroyed) + [handle]
    {
      liveImages := liveImages - {handle};
      destroyed := destroyed + [handle];
    }

    /** GET `/`: every stored post exactly once, most recent first. Posts
        created at the same time come in no particular order. */
    method List() returns (res: Response)
      requires Valid()
      ensures res.status == 200 && res.body.AllPosts?
      ensures NewestFirst(res.body.posts)
      ensures ListsExactly(res.body.posts, posts)
    {
      var remaining := posts.Keys;
      var out: seq<Post> := [];
      while remaining != {}
        invariant ListedSoFar(posts, out, remaining)
        decreases remaining
      {
        NewestExists(posts, remaining);
        var k :| k in remaining && forall j :: j in remaining ==> posts[j].createdAt <= posts[k].createdAt;
        ListStep(posts, out, remaining, k);
        out := out + [posts[k]];
        remaining := remaining - {k};
      }
      res := Response(200, AllPosts(out));
    }

    /** GET `/:id`: the post, or 404 when the id is not stored. */
    method Get(id: PostId) returns (res: Response)
      ensures id in posts ==> res == Response(200, OnePost(posts[id]))
      ensures id !in posts ==> res == Response(404, Message(NotFound))
    {
      if id !in posts {
        return Response(404, Message(NotFound));
      }
      res := Response(200, OnePost(posts[id]));
    }

    /** POST `/`: saves the new post under a fresh id and answers 201; when
        the save fails, nothing is stored, the uploaded image (if any) is
        destroyed once, and the answer is 400. */
    method Create(user: User, form: Form, file: Option<Upload>, saveOk: bool, now: int) returns (res: Response)
      requires Valid()
      modifies this
      ensures Valid()
      ensures saveOk ==>
        var p := NewPost(old(nextId), form, user, file, now);
        && old(nextId) !in old(posts)
        && posts == old(posts)[old(nextId) := p]
        && nextId == old(nextId) + 1
        && destroyed == old(destroyed)
        && liveImages == old(liveImages) + Uploaded(file)
        && res == Response(201, OnePost(p))
      ensures !saveOk ==>
        && posts == old(posts)
        && nextId == old(nextId)
        && destroyed == old(destroyed) + ReleaseUpload(file)
        && liveImages == old(liveImages) + Uploaded(file) - Uploaded(file)
        && res == Response(400, StoreError)
    {
      Receive(file);
      var p := NewPost(nextId, form, user, file, now);
      if saveOk {
        posts := posts[nextId := p];
        nextId := nextId + 1;
        res := Response(201, OnePost(p));
      } else {
        if file.Some? {
          Destroy(file.value.filename);
        }
        res := Response(400, StoreError);
      }
    }

    /** PUT `/:id`. An unknown id answers 404 and a caller who does not own
        the post 403, both before anything is changed or released (a file
        the middleware already stored stays on the image service). For the
        owner, an uploaded file first destroys the stored image, if any;
        then the merged record is saved (200), or, when the save fails, the
        uploaded file is destroyed too and the stored record keeps its old,
        now destroyed, image handle (400). */
    method Update(id: PostId, user: User, form: Form, file: Option<Upload>, saveOk: bool) returns (res: Response)
      requires Valid()
      modifies this`posts, this`liveImages, this`destroyed
      ensures Valid()
      ensures id !in old(posts) ==>
        && res == Response(404, Message(NotFound))
        && posts == old(posts) && destroyed == old(destroyed)
        && liveImages == old(liveImages) + Uploaded(file)
      ensures id in old(posts) && old(posts)[id].userId != user.uid ==>
        && res == Response(403, Message(ForbiddenEdit))
        && posts == old(posts) && destroyed == old(destroyed)
        && liveImages == old(liveImages) + Uploaded(file)
      ensures id in old(posts) && old(posts)[id].userId == user.uid ==>
        var before := old(posts)[id];
        var released := (if file.Some? then ReleaseStored(before) else [])
                        + (if saveOk then [] else ReleaseUpload(file));
        && destroyed == old(destroyed) + released
        && liveImages == old(liveImages) + Uploaded(file)
                         - (if file.Some? then StoredHandle(before) else {})
                         - (if saveOk then {} else Uploaded(file))
        && (saveOk ==> posts == old(posts)[id := Merged(before, form, file)]
                       && res == Response(200, OnePost(Merged(before, form, file))))
        && (!saveOk ==> posts == old(posts) && res == Response(400, StoreError))
      ensures id in old(posts) && old(posts)[id].userId == user.uid && !saveOk && file.Some? && HasImage(old(posts)[id]) ==>
        && posts[id].imagePublicId == old(posts)[id].imagePublicId
        && posts[id].imagePublicId.value in destroyed
    {
      Receive(file);
      if id !in posts {
        return Response(404, Message(NotFound));
      }
      var post := posts[id];
      if post.userId != user.uid {
        return Response(403, Message(ForbiddenEdit));
      }
      res := SaveEdit(post, form, file, saveOk);
    }

    /** The owner's branch of PUT `/:id`: merge the text fields, swap the
        image when a file was uploaded, then save; when the save fails, the
        uploaded file is destroyed as well and the stored post is left as it
        was. */
    method SaveEdit(before: Post, form: Form, file: Option<Upload>, saveOk: bool) returns (res: Response)
      requires Valid() && before.id in posts && posts[before.id] == before
      modifies this`posts, this`liveImages, this`destroyed
      ensures Valid()
      ensures destroyed == old(destroyed) + (if file.Some? then ReleaseStored(before) else [])
                                          + (if saveOk then [] else ReleaseUpload(file))
      ensures liveImages == old(liveImages) - (if file.Some? then StoredHandle(before) else {})
                                            - (if saveOk then {} else Uploaded(file))
      ensures saveOk ==> posts == old(posts)[before.id := Merged(before, form, file)]
                         && res == Response(200, OnePost(Merged(before, form, file)))
      ensures !saveOk ==> posts == old(posts) && res == Response(400, StoreError)
    {
      var post := before.(title := if form.title != "" then form.title else before.title,
                          content := if form.content != "" then form.content else before.content,
                          tags := if form.tags != "" then Tags.ParseTags(form.tags) else before.tags);
      post := ReplaceImage(post, file);
      assert post == Merged(before, form, file);
      assert post.id == before.id && ImagePaired(post);
      if saveOk {
        posts := posts[post.id := post];
        res := Response(200, OnePost(post));
      } else {
        if file.Some? {
          Destroy(file.value.filename);
        }
        res := Response(400, StoreError);
      }
    }

    /** The image step of the owner's update: with an uploaded file, the
        post's stored image (if any) is destroyed and the file's url and
        handle take its place; without one, nothing changes. */
    method ReplaceImage(post: Post, file: Option<Upload>) returns (q: Post)
      modifies this`liveImages, this`destroyed
      ensures file.None? ==> q == post
      ensures file.Some? ==> q == post.(imageUrl := Some(file.value.path), imagePublicId := Some(file.value.filename))
      ensures destroyed == old(destroyed) + (if file.Some? then ReleaseStored(post) else [])
      ensures liveImages == old(liveImages) - (if file.Some? then StoredHandle(post) else {})
    {
      q := post;
      if file.Some? {
        if HasImage(post) {
          Destroy(post.imagePublicId.value);
        }
        q := q.(imageUrl := Some(file.value.path), imagePublicId := Some(file.value.filename));
      }
    }

    /** DELETE `/:id`. An unknown id answers 404 and a caller who does not
        own the post 403, with nothing changed. For the owner, the post's
        image is destroyed once if it has one, then exactly that post is
        removed. */
    method Delete(id: PostId, user: User) returns (res: Response)
      requires Valid()
      modifies this`posts, this`liveImages, this`destroyed
      ensures Valid()
      ensures id !in old(posts) ==>
        && res == Response(404, Message(NotFound))
        && posts == old(posts) && destroyed == old(destroyed) && liveImages == old(liveImages)
      ensures id in old(posts) && old(posts)[id].userId != user.uid ==>
        && res == Response(403, Message(ForbiddenDelete))
        && posts == old(posts) && destroyed == old(destroyed) && liveImages == old(liveImages)
      ensures id in old(posts) && old(posts)[id].userId == user.uid ==>
        var before := old(posts)[id];
        && destroyed == old(destroyed) + ReleaseStored(before)
        && liveImages == old(liveImages) - StoredHandle(before)
        && posts == old(posts) - {id}
        && res == Response(200, Message(Deleted))
    {
      if id !in posts {
        return Response(404, Message(NotFound));
      }
      var post := posts[id];
      if post.userId != user.uid {
        return Response(403, Message(ForbiddenDelete));
      }
      if HasImage(post) {
        Destroy(post.imagePublicId.value);
      }
      posts := posts - {id};
      res := Response(200, Message(Deleted));
    }
  }

  /** A post created by one user can be read back as created, and another
      user's attempts to edit or delete it are refused with the post left
      as it was. */
  method ForeignCallerScenario(owner: User, other: User, form: Form, edit: Form, now: int)
    returns (created: Response, edited: Response, removed: Response, fetched: Response)
    requires owner.uid != other.uid
    ensures created.status == 201 && created.body.OnePost?
    ensures created.body.post.title == form.title && created.body.post.content == form.content
    ensures created.body.post.tags == Tags.ParseTags(form.tags) && created.body.post.userId == owner.uid
    ensures edited == Response(403, Message(ForbiddenEdit))
    ensures removed == Response(403, Message(ForbiddenDelete))
    ensures fetched == Response(200, created.body)
  {
    var blog := new Blog();
    created := blog.Create(owner, form, None, true, now);
    edited := blog.Update(0, other, edit, None, true);
    removed := blog.Delete(0, other);
    fetched := blog.Get(0);
  }
}
