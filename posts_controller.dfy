/**
 * The server's post handlers over an in-memory store: listing posts for the
 * feed and for a profile, fetching one post, toggling a like, deleting a post
 * (soft or with the full cascade) and editing it.
 *
 * The document database becomes sequences and sets of documents; the media
 * host becomes the set of public ids it holds. The process-wide soft-delete
 * setting, the clock and the result of the object-id test are parameters.
 */
module PostsController {
  import opened Wrappers
  import opened Documents

  // ---------------------------------------------------------------------------
  // Listings

  /** The receivers of a user's follow edges: the users it follows. */
  function Receivers(following: seq<Follow>): (r: seq<ObjectId>)
    ensures |r| == |following|
    ensures forall i :: 0 <= i < |following| ==> r[i] == following[i].receiver
  {
    seq(|following|, i requires 0 <= i < |following| => following[i].receiver)
  }

  /** A post belongs in the feed of type `feedType` of a viewer who follows `receivers`. */
  predicate InFeed(p: Post, receivers: seq<ObjectId>, feedType: string) {
    p.deletedAt.None? && (feedType == "following" ==> p.owner in receivers)
  }

  /** The posts the feed query matches, each as often as the store holds it. */
  function FeedFilter(posts: seq<Post>, receivers: seq<ObjectId>, feedType: string): (r: seq<Post>)
    ensures forall p :: multiset(r)[p] == if InFeed(p, receivers, feedType) then multiset(posts)[p] else 0
  {
    if posts == [] then []
    else
      assert posts == [posts[0]] + posts[1..];
      (if InFeed(posts[0], receivers, feedType) then [posts[0]] else []) + FeedFilter(posts[1..], receivers, feedType)
  }

  predicate NewestFirst(s: seq<Post>) {
    forall i, j :: 0 <= i < j < |s| ==> s[i].createdAt >= s[j].createdAt
  }

  function InsertByDate(p: Post, s: seq<Post>): (r: seq<Post>)
    requires NewestFirst(s)
    ensures NewestFirst(r) && multiset(r) == multiset(s) + multiset{p}
  {
    if s == [] || p.createdAt >= s[0].createdAt then
      NewestInFront(p, s);
      [p] + s
    else
      assert s == [s[0]] + s[1..];
      var rest := InsertByDate(p, s[1..]);
      NewerThanAll(s[0], p, s[1..], rest);
      [s[0]] + rest
  }

  lemma NewestInFront(p: Post, s: seq<Post>)
    requires NewestFirst(s) && (s == [] || p.createdAt >= s[0].createdAt)
    ensures NewestFirst([p] + s)
  {
    forall i, j | 0 <= i < j < |[p] + s| ensures ([p] + s)[i].createdAt >= ([p] + s)[j].createdAt {
      if i == 0 {
        assert s[0].createdAt >= s[j - 1].createdAt || j == 1;
      }
    }
  }

  lemma NewerThanAll(head: Post, p: Post, tail: seq<Post>, rest: seq<Post>)
    requires NewestFirst(rest) && multiset(rest) == multiset(tail) + multiset{p}
    requires head.createdAt > p.createdAt
    requires forall j :: 0 <= j < |tail| ==> head.createdAt >= tail[j].createdAt
    ensures NewestFirst([head] + rest)
  {
    forall i | 0 <= i < |rest| ensures head.createdAt >= rest[i].createdAt {
      assert rest[i] in multiset(rest);
      if rest[i] != p {
        assert rest[i] in multiset(tail);
      }
    }
  }

  /** The posts ordered by creation time, newest first. */
  function SortNewestFirst(s: seq<Post>): (r: seq<Post>)
    ensures NewestFirst(r) && multiset(r) == multiset(s)
  {
    if s == [] then []
    else
      assert s == [s[0]] + s[1..];
      InsertByDate(s[0], SortNewestFirst(s[1..]))
  }

  /**
   * The feed: every post that is not soft-deleted (for the `following` type,
   * only those of users the viewer follows), each as often as stored, newest
   * first.
   */
  function Feed(posts: seq<Post>, viewerFollowing: seq<Follow>, feedType: string): (r: seq<Post>)
    ensures NewestFirst(r)
    ensures forall p :: multiset(r)[p]
              == if InFeed(p, Receivers(viewerFollowing), feedType) then multiset(posts)[p] else 0
    ensures forall i :: 0 <= i < |r| ==> r[i].deletedAt.None?
    ensures feedType == "following" ==>
              forall i :: 0 <= i < |r| ==> exists e :: e in viewerFollowing && e.receiver == r[i].owner
  {
    var r := SortNewestFirst(FeedFilter(posts, Receivers(viewerFollowing), feedType));
    forall i | 0 <= i < |r|
      ensures InFeed(r[i], Receivers(viewerFollowing), feedType)
    {
      assert multiset(r)[r[i]] > 0;
    }
    r
  }

  /** The user a profile key names: by id when the key is an object id, otherwise by user name. */
  function FindUser(users: seq<User>, key: string, isObjectId: bool): (r: Option<User>)
    ensures r.Some? ==> r.value in users && (if isObjectId then r.value.id == key else r.value.userName == key)
    ensures r.None? ==> forall u :: u in users ==> (if isObjectId then u.id != key else u.userName != key)
  {
    if users == [] then None
    else if (if isObjectId then users[0].id == key else users[0].userName == key) then Some(users[0])
    else FindUser(users[1..], key, isObjectId)
  }

  /** A user's posts that are not soft-deleted, each as often as stored. */
  function ProfilePosts(posts: seq<Post>, owner: ObjectId): (r: seq<Post>)
    ensures forall p :: multiset(r)[p]
              == if p.owner == owner && p.deletedAt.None? then multiset(posts)[p] else 0
  {
    if posts == [] then []
    else
      assert posts == [posts[0]] + posts[1..];
      (if posts[0].owner == owner && posts[0].deletedAt.None? then [posts[0]] else [])
      + ProfilePosts(posts[1..], owner)
  }

  datatype ProfileResponse = ProfileResponse(user: Option<User>, posts: seq<Post>)

  /** The profile of the user a key names with that user's listed posts; an unknown user gives no posts. */
  function GetProfile(users: seq<User>, posts: seq<Post>, key: string, isObjectId: bool): (r: ProfileResponse)
    ensures r.user == FindUser(users, key, isObjectId)
    ensures r.user.None? ==> r.posts == []
    ensures r.user.Some? ==>
              forall p :: multiset(r.posts)[p]
                == if p.owner == r.user.value.id && p.deletedAt.None? then multiset(posts)[p] else 0
  {
    match FindUser(users, key, isObjectId)
    case None => ProfileResponse(None, [])
    case Some(u) => ProfileResponse(Some(u), ProfilePosts(posts, u.id))
  }

  /** The index of the first post with id `id`, as a lookup by id finds it. */
  function FindPost(posts: seq<Post>, id: ObjectId): (r: Option<nat>)
    ensures r.Some? ==> r.value < |posts| && posts[r.value].id == id
    ensures r.Some? ==> forall j :: 0 <= j < r.value ==> posts[j].id != id
    ensures r.None? ==> forall j :: 0 <= j < |posts| ==> posts[j].id != id
  {
    if posts == [] then None
    else if posts[0].id == id then Some(0)
    else match FindPost(posts[1..], id)
      case None => None
      case Some(k) => Some(k + 1)
  }

  /** The root comments that are not soft-deleted, in their order. */
  function LiveRoots(roots: seq<Comment>): (r: seq<Comment>)
    ensures forall i :: 0 <= i < |r| ==> r[i].deletedAt.None? && r[i] in roots
    ensures forall c :: c in roots && c.deletedAt.None? ==> c in r
    ensures forall c :: multiset(r)[c] == if c.deletedAt.None? then multiset(roots)[c] else 0
  {
    if roots == [] then []
    else
      assert roots == [roots[0]] + roots[1..];
      (if roots[0].deletedAt.None? then [roots[0]] else []) + LiveRoots(roots[1..])
  }

  /** The filter works piece by piece, so the live roots keep their stored order. */
  lemma {:induction false} LiveRootsAppend(a: seq<Comment>, b: seq<Comment>)
    ensures LiveRoots(a + b) == LiveRoots(a) + LiveRoots(b)
    decreases |a|
  {
    if a == [] {
      assert a + b == b;
    } else {
      assert (a + b)[0] == a[0] && (a + b)[1..] == a[1..] + b;
      LiveRootsAppend(a[1..], b);
    }
  }

  /**
   * The answer to fetching one post: the post with its live root comments,
   * "not found" for a soft-deleted post, and no answer at all for an unknown
   * id (the handler fails on the missing document and only logs).
   */
  datatype PostResponse = Found(post: Post, comments: seq<Comment>) | NotFound | NoResponse

  function GetPost(posts: seq<Post>, id: ObjectId): (r: PostResponse)
    ensures r.NoResponse? <==> forall j :: 0 <= j < |posts| ==> posts[j].id != id
    ensures r.NotFound? <==> FindPost(posts, id).Some? && posts[FindPost(posts, id).value].deletedAt.Some?
    ensures r.Found? ==>
              var stored := posts[FindPost(posts, id).value];
              && stored.id == id && stored.deletedAt.None?
              && r.comments == LiveRoots(stored.comments)
              && r.post == stored.(comments := r.comments)
  {
    match FindPost(posts, id)
    case None => NoResponse
    case Some(i) =>
      if posts[i].deletedAt.Some? then NotFound
      else Found(posts[i].(comments := LiveRoots(posts[i].comments)), LiveRoots(posts[i].comments))
  }

  // ---------------------------------------------------------------------------
  // Collecting a post's comment ids before a hard delete

  /**
   * The work-list walk of the hard delete: pop the last comment, push its
   * replies, record its id, until the list is empty. Every comment of the
   * forest is recorded exactly once and nothing else is.
   */
  method CollectCommentIds(roots: seq<Comment>) returns (ids: seq<ObjectId>)
    ensures multiset(ids) == multiset(Flatten(roots))
  {
    var comments := roots;
    ids := [];
    while |comments| > 0
      invariant multiset(ids) + multiset(Flatten(comments)) == multiset(Flatten(roots))
      decreases |Flatten(comments)|
    {
      var last := |comments| - 1;
      var comment := comments[last];
      assert comments == comments[..last] + [comment];
      FlattenAppend(comments[..last], [comment]);
      FlattenSingle(comment);
      FlattenAppend(comments[..last], comment.children);
      comments := comments[..last] + comment.children;
      ids := ids + [comment.id];
    }
  }

  lemma SameElements<T>(a: seq<T>, b: seq<T>)
    requires multiset(a) == multiset(b)
    ensures (set x | x in a) == (set x | x in b)
  {
    forall x ensures x in a <==> x in b {
      assert x in a <==> x in multiset(a);
      assert x in b <==> x in multiset(b);
    }
  }

  /**
   * Every comment below a live root is among the comments of the live roots,
   * which `CollectCommentIds` collects exactly.
   */
  lemma CollectedAreLiveSubtrees(roots: seq<Comment>, c: Comment)
    requires c in roots && c.deletedAt.None?
    ensures forall x :: x in Subtree(c) ==> x in Flatten(LiveRoots(roots))
  {
    var live := LiveRoots(roots);
    var i :| 0 <= i < |live| && live[i] == c;
    FlattenSubtreeContained(live, i);
  }

  lemma FlattenSubtreeContained(f: seq<Comment>, i: nat)
    requires i < |f|
    ensures forall x :: x in Subtree(f[i]) ==> x in Flatten(f)
  {
    assert f == f[..i] + f[i..];
    FlattenAppend(f[..i], f[i..]);
    assert f[i..][0] == f[i];
  }

  // ---------------------------------------------------------------------------
  // Editing the text fields of a post

  datatype EditForm = EditForm(title: string, caption: string)

  datatype PostField = Title | Caption

  function FieldOf(p: Post, key: PostField): (value: string) {
    match key
    case Title => p.title
    case Caption => p.caption
  }

  function WithField(p: Post, key: PostField, value: string): (q: Post) {
    match key
    case Title => p.(title := value)
    case Caption => p.(caption := value)
  }

  function Submitted(form: EditForm, key: PostField): (value: string) {
    match key
    case Title => form.title
    case Caption => form.caption
  }

  /**
   * The per-field dirty check: each submitted text field that differs from
   * the stored one overwrites it and marks the post edited; an equal one
   * changes nothing, and `edited` is never reset.
   */
  method ApplyTextEdits(p: Post, form: EditForm) returns (q: Post)
    ensures q.title == form.title && q.caption == form.caption
    ensures q.edited == (p.edited || form.title != p.title || form.caption != p.caption)
    ensures q.(title := p.title, caption := p.caption, edited := p.edited) == p
  {
    q := p;
    var keys := [Title, Caption];
    for i := 0 to |keys|
      invariant forall j :: 0 <= j < i ==> FieldOf(q, keys[j]) == Submitted(form, keys[j])
      invariant forall j :: i <= j < |keys| ==> FieldOf(q, keys[j]) == FieldOf(p, keys[j])
      invariant q.edited == (p.edited || (i > 0 && form.title != p.title) || (i > 1 && form.caption != p.caption))
      invariant q.(title := p.title, caption := p.caption, edited := p.edited) == p
    {
      var key := keys[i];
      if Submitted(form, key) != FieldOf(q, key) {
        q := WithField(q, key, Submitted(form, key));
        q := q.(edited := true);
      }
    }
    assert FieldOf(q, keys[0]) == Submitted(form, keys[0]);
    assert FieldOf(q, keys[1]) == Submitted(form, keys[1]);
  }

  // ---------------------------------------------------------------------------
  // Likes

  datatype Like = Like(user: ObjectId, post: ObjectId)

  /**
   * A like toggle: an existing like of the pair is deleted and -1 reported,
   * otherwise one is created and +1 reported.
   */
  function ToggleLike(likes: set<Like>, like: Like): (r: (set<Like>, int))
  {
    if like in likes then (likes - {like}, -1) else (likes + {like}, 1)
  }

  /** Toggling twice restores the likes; the two reports cancel out, and a third toggle reports as the first did. */
  lemma ToggleLikeTwice(likes: set<Like>, like: Like)
    ensures ToggleLike(ToggleLike(likes, like).0, like).0 == likes
    ensures ToggleLike(likes, like).1 + ToggleLike(ToggleLike(likes, like).0, like).1 == 0
    ensures ToggleLike(ToggleLike(ToggleLike(likes, like).0, like).0, like).1 == ToggleLike(likes, like).1
  {
  }

  /** A toggle reports +1 exactly when the like is now present and -1 exactly when it is now gone; other likes stay. */
  lemma ToggleLikeReports(likes: set<Like>, like: Like)
    ensures ToggleLike(likes, like).1 == 1 <==> like in ToggleLike(likes, like).0
    ensures ToggleLike(likes, like).1 == -1 <==> like !in ToggleLike(likes, like).0
    ensures ToggleLike(likes, like).0 - {like} == likes - {like}
  {
  }

  // ---------------------------------------------------------------------------
  // The store and the handlers that change it

  /** All posts with id `id` taken out. */
  function WithoutPost(posts: seq<Post>, id: ObjectId): (r: seq<Post>)
    ensures forall p :: multiset(r)[p] == if p.id == id then 0 else multiset(posts)[p]
  {
    if posts == [] then []
    else
      assert posts == [posts[0]] + posts[1..];
      (if posts[0].id == id then [] else [posts[0]]) + WithoutPost(posts[1..], id)
  }

  datatype Upload = Upload(secureUrl: string, publicId: string)

  datatype DeleteOutcome = SoftDeleted(post: Post) | Redirected

  datatype EditOutcome = Edited(post: Post) | EditNotFound | EditRedirected

  class Store {
    var posts: seq<Post>
    var likes: set<Like>
    /** The ids of the documents in the comments collection. */
    var commentIds: set<ObjectId>
    /** The public ids of the media the media host holds. */
    var hostedMedia: set<string>

    constructor (posts: seq<Post>, likes: set<Like>, commentIds: set<ObjectId>, hostedMedia: set<string>)
      ensures this.posts == posts && this.likes == likes
      ensures this.commentIds == commentIds && this.hostedMedia == hostedMedia
    {
      this.posts := posts;
      this.likes := likes;
      this.commentIds := commentIds;
      this.hostedMedia := hostedMedia;
    }

    /** Toggles `user`'s like of post `post` and reports the change of the like count. */
    method LikePost(user: ObjectId, post: ObjectId) returns (delta: int)
      modifies this
      ensures (likes, delta) == ToggleLike(old(likes), Like(user, post))
      ensures posts == old(posts) && commentIds == old(commentIds) && hostedMedia == old(hostedMedia)
    {
      var like := Like(user, post);
      if like in likes {
        likes := likes - {like};
        delta := -1;
        return;
      }
      likes := likes + {like};
      delta := 1;
    }

    /**
     * Deletes post `id`. With soft deletes on, only the post's `deletedAt`
     * is set. Otherwise its media is released, the comments of its live
     * root comments' subtrees, its likes and the post itself are deleted.
     * An unknown id changes nothing.
     */
    method DeletePost(id: ObjectId, softDeletes: bool, now: int) returns (outcome: DeleteOutcome)
      modifies this
      ensures FindPost(old(posts), id).None? ==>
                outcome.Redirected? && posts == old(posts) && likes == old(likes)
                && commentIds == old(commentIds) && hostedMedia == old(hostedMedia)
      ensures FindPost(old(posts), id).Some? && softDeletes ==>
                var i := FindPost(old(posts), id).value;
                && outcome == SoftDeleted(old(posts)[i].(deletedAt := Some(now)))
                && posts == old(posts)[i := old(posts)[i].(deletedAt := Some(now))]
                && likes == old(likes) && commentIds == old(commentIds) && hostedMedia == old(hostedMedia)
      ensures FindPost(old(posts), id).Some? && !softDeletes ==>
                var p := old(posts)[FindPost(old(posts), id).value];
                && outcome.Redirected?
                && posts == WithoutPost(old(posts), id)
                && likes == set l | l in old(likes) && l.post != id
                && commentIds == old(commentIds) - set x | x in Flatten(LiveRoots(p.comments))
                && hostedMedia == old(hostedMedia) - {p.cloudinaryId}
    {
      var found := FindPost(posts, id);
      if found.None? {
        return Redirected;
      }
      var i := found.value;
      var post := posts[i];
      if softDeletes {
        post := post.(deletedAt := Some(now));
        posts := posts[i := post];
        return SoftDeleted(post);
      }
      Destroy(post);
      return Redirected;
    }

    /**
     * The hard delete of `post`: its media is released, the comments of its
     * live root comments' subtrees, its likes and the post itself are deleted.
     */
    method Destroy(post: Post)
      modifies this
      ensures hostedMedia == old(hostedMedia) - {post.cloudinaryId}
      ensures commentIds == old(commentIds) - set x | x in Flatten(LiveRoots(post.comments))
      ensures likes == set l | l in old(likes) && l.post != post.id
      ensures posts == WithoutPost(old(posts), post.id)
    {
      hostedMedia := hostedMedia - {post.cloudinaryId};
      var collected := CollectCommentIds(LiveRoots(post.comments));
      SameElements(collected, Flatten(LiveRoots(post.comments)));
      commentIds := commentIds - set x | x in collected;
      likes := set l | l in likes && l.post != post.id;
      posts := WithoutPost(posts, post.id);
    }

    /**
     * Edits post `id` from the form and, when a file was sent, replaces its
     * media. A soft-deleted post answers "not found" and an unknown id fails;
     * neither changes anything.
     */
    method EditPost(id: ObjectId, form: EditForm, upload: Option<Upload>) returns (outcome: EditOutcome)
      modifies this
      ensures likes == old(likes) && commentIds == old(commentIds)
      ensures FindPost(old(posts), id).None? ==>
                outcome.EditRedirected? && posts == old(posts) && hostedMedia == old(hostedMedia)
      ensures FindPost(old(posts), id).Some? && old(posts)[FindPost(old(posts), id).value].deletedAt.Some? ==>
                outcome.EditNotFound? && posts == old(posts) && hostedMedia == old(hostedMedia)
      ensures FindPost(old(posts), id).Some? && old(posts)[FindPost(old(posts), id).value].deletedAt.None? ==>
                var i := FindPost(old(posts), id).value;
                var p := old(posts)[i];
                && outcome.Edited?
                && posts == old(posts)[i := outcome.post]
                && outcome.post.title == form.title && outcome.post.caption == form.caption
                && outcome.post.edited
                   == (p.edited || form.title != p.title || form.caption != p.caption || upload.Some?)
                && outcome.post.media == (if upload.Some? then upload.value.secureUrl else p.media)
                && outcome.post.cloudinaryId == (if upload.Some? then upload.value.publicId else p.cloudinaryId)
                && outcome.post.(title := p.title, caption := p.caption, edited := p.edited,
                                 media := p.media, cloudinaryId := p.cloudinaryId) == p
                && hostedMedia
                   == if upload.Some? then old(hostedMedia) - {p.cloudinaryId} + {upload.value.publicId}
                      else old(hostedMedia)
    {
      var found := FindPost(posts, id);
      if found.None? {
        return EditRedirected;
      }
      var i := found.value;
      var post := posts[i];
      if post.deletedAt.Some? {
        return EditNotFound;
      }
      post := ApplyTextEdits(post, form);
      if upload.Some? {
        post := post.(edited := true);
        hostedMedia := hostedMedia - {post.cloudinaryId};
        hostedMedia := hostedMedia + {upload.value.publicId};
        post := post.(media := upload.value.secureUrl, cloudinaryId := upload.value.publicId);
      }
      posts := posts[i := post];
      return Edited(post);
    }
  }

  /**
   * A soft-deleted post is hidden everywhere but stays stored: fetching it
   * answers "not found", and no feed and no profile lists it.
   */
  lemma SoftDeletedIsHidden(posts: seq<Post>, i: nat, now: int, users: seq<User>, key: string,
                            isObjectId: bool, viewerFollowing: seq<Follow>, feedType: string)
    requires i < |posts| && FindPost(posts, posts[i].id) == Some(i)
    ensures GetPost(posts[i := posts[i].(deletedAt := Some(now))], posts[i].id) == NotFound
    ensures posts[i].(deletedAt := Some(now)) !in Feed(posts[i := posts[i].(deletedAt := Some(now))], viewerFollowing, feedType)
    ensures posts[i].(deletedAt := Some(now)) !in GetProfile(users, posts[i := posts[i].(deletedAt := Some(now))], key, isObjectId).posts
  {
    var hidden := posts[i].(deletedAt := Some(now));
    var after := posts[i := hidden];
    FindAfterUpdate(posts, i, hidden);
    NotListed(after, hidden, users, key, isObjectId, viewerFollowing, feedType);
  }

  lemma FindAfterUpdate(posts: seq<Post>, i: nat, p: Post)
    requires i < |posts| && FindPost(posts, posts[i].id) == Some(i) && p.id == posts[i].id
    ensures FindPost(posts[i := p], p.id) == Some(i)
  {
    var after := posts[i := p];
    var r := FindPost(after, p.id);
    assert after[i].id == p.id;
    assert forall j :: 0 <= j < i ==> after[j] == posts[j];
  }

  lemma NotListed(posts: seq<Post>, hidden: Post, users: seq<User>, key: string,
                  isObjectId: bool, viewerFollowing: seq<Follow>, feedType: string)
    requires hidden.deletedAt.Some?
    ensures hidden !in Feed(posts, viewerFollowing, feedType)
    ensures hidden !in GetProfile(users, posts, key, isObjectId).posts
  {
    var feed := Feed(posts, viewerFollowing, feedType);
    assert multiset(feed)[hidden] == 0;
    var profile := GetProfile(users, posts, key, isObjectId);
    assert multiset(profile.posts)[hidden] == 0;
  }
}
