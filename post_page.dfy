/**
 * The post page of the client. It holds the post being shown and the forest
 * of its comments. After the server has added, edited or deleted a comment
 * at any depth, the page patches its own forest instead of fetching it
 * again: it copies the forest, finds the first node with the comment's id in
 * breadth-first order, patches that node, and installs the copy.
 *
 * The copy is made with a JSON round trip, so it shares no node with the
 * displayed forest and no node is reachable twice; comment forests are
 * therefore values here, and patching a node of the copy is an update of the
 * copy at that node's path.
 *
 * Ids: the source keys root entries of its parent-list map by `_id` but
 * looks entries up, and records nested ones, by `id`. Only one id is
 * modelled; the splice below removes the node from the list that really
 * holds it, which is what the map is there to find.
 */
module PostPage {
  import opened Wrappers
  import opened Documents
  import opened CommentTree

  /**
   * The fields of a comment that a server response carries; `None` is a
   * field the response leaves out. Copying a response onto a node copies
   * exactly the fields it has.
   */
  datatype CommentPatch = CommentPatch(
    id: Option<ObjectId>,
    author: Option<ObjectId>,
    text: Option<string>,
    deletedAt: Option<int>,
    children: Option<seq<Comment>>)

  /**
   * `after` holds, field by field, what `patch` carries, and `before`'s value
   * wherever `patch` leaves the field out.
   */
  predicate Copies(after: Comment, before: Comment, patch: CommentPatch) {
    && (patch.id.Some? ==> after.id == patch.id.value)
    && (patch.id.None? ==> after.id == before.id)
    && (patch.author.Some? ==> after.author == patch.author.value)
    && (patch.author.None? ==> after.author == before.author)
    && (patch.text.Some? ==> after.text == patch.text.value)
    && (patch.text.None? ==> after.text == before.text)
    && (patch.deletedAt.Some? ==> after.deletedAt == patch.deletedAt)
    && (patch.deletedAt.None? ==> after.deletedAt == before.deletedAt)
    && (patch.children.Some? ==> after.children == patch.children.value)
    && (patch.children.None? ==> after.children == before.children)
  }

  /** `c` with the fields `patch` carries overwritten and the others kept. */
  function Overlay(c: Comment, patch: CommentPatch): (r: Comment)
    ensures Copies(r, c, patch)
  {
    Comment(
      if patch.id.Some? then patch.id.value else c.id,
      if patch.author.Some? then patch.author.value else c.author,
      if patch.text.Some? then patch.text.value else c.text,
      if patch.deletedAt.Some? then patch.deletedAt else c.deletedAt,
      if patch.children.Some? then patch.children.value else c.children)
  }

  /**
   * The search shared by deleting, editing and replying: a queue that starts
   * with the roots, takes its head, stops at the first node whose id is
   * `id`, and otherwise appends the node's replies.
   */
  method FindFirst(f: seq<Comment>, id: ObjectId) returns (found: Option<Path>)
    ensures found == Search(f, id)
    ensures found.None? <==> id !in Flatten(f)
    ensures found.Some? ==> ValidPath(f, found.value) && At(f, found.value).id == id
  {
    var queue := RootPaths(f);
    ghost var order := BfsOrder(f);
    ghost var visited := 0;
    while queue != []
      invariant AllValid(f, queue)
      invariant visited <= |order| && BfsFrom(f, queue) == order[visited..]
      invariant forall j :: 0 <= j < visited ==> At(f, order[j]).id != id
      decreases |order| - visited
    {
      var p := queue[0];
      if At(f, p).id == id {
        found := Some(p);
        assert order[visited] == BfsFrom(f, queue)[0] == p;
        assert FirstMatch(f, order, id) == Some(visited);
        SearchSpec(f, id);
        return;
      }
      NextSpec(f, queue);
      queue := queue[1..] + ChildPaths(f, p);
      visited := visited + 1;
    }
    found := None;
    SearchSpec(f, id);
  }

  /** The forest after deleting comment `id`: a tombstone is copied onto the node, no tombstone splices it out. */
  function AfterDelete(f: seq<Comment>, id: ObjectId, tombstone: Option<CommentPatch>): (r: seq<Comment>)
  {
    SearchSpec(f, id);
    match Search(f, id)
    case None => f
    case Some(p) =>
      if tombstone.Some? then UpdateAt(f, p, Overlay(At(f, p), tombstone.value)) else RemoveAt(f, p)
  }

  /** The forest after editing comment `id`: the response is copied onto the node. */
  function AfterEdit(f: seq<Comment>, id: ObjectId, response: CommentPatch): (r: seq<Comment>)
  {
    SearchSpec(f, id);
    match Search(f, id)
    case None => f
    case Some(p) => UpdateAt(f, p, Overlay(At(f, p), response))
  }

  /** The forest after replying to comment `id`: the reply becomes the node's last child. */
  function AfterReply(f: seq<Comment>, id: ObjectId, reply: Comment): (r: seq<Comment>)
  {
    SearchSpec(f, id);
    match Search(f, id)
    case None => f
    case Some(p) => UpdateAt(f, p, At(f, p).(children := At(f, p).children + [reply]))
  }

  /** With no node carrying the id, none of the three patches changes the forest. */
  lemma AbsentIdChangesNothing(f: seq<Comment>, id: ObjectId, tombstone: Option<CommentPatch>,
                               response: CommentPatch, reply: Comment)
    requires id !in Flatten(f)
    ensures AfterDelete(f, id, tombstone) == f
    ensures AfterEdit(f, id, response) == f
    ensures AfterReply(f, id, reply) == f
  {
    SearchSpec(f, id);
  }

  /**
   * Only the first node in breadth-first order that carries the id is
   * patched: the node at the path the search found, and no node visited
   * before it has the id.
   */
  lemma OnlyFirstMatchPatched(f: seq<Comment>, id: ObjectId, response: CommentPatch)
    requires id in Flatten(f)
    ensures Search(f, id).Some?
    ensures ValidPath(f, Search(f, id).value)
    ensures exists k :: 0 <= k < |BfsOrder(f)| && BfsOrder(f)[k] == Search(f, id).value
                        && forall j :: 0 <= j < k ==> At(f, BfsOrder(f)[j]).id != id
    ensures ValidPath(AfterEdit(f, id, response), Search(f, id).value)
    ensures At(AfterEdit(f, id, response), Search(f, id).value) == Overlay(At(f, Search(f, id).value), response)
    ensures forall q :: ValidPath(f, q) && !IsPrefix(q, Search(f, id).value) && !IsPrefix(Search(f, id).value, q) ==>
              ValidPath(AfterEdit(f, id, response), q) && At(AfterEdit(f, id, response), q) == At(f, q)
    ensures OnlyPatched(f, AfterEdit(f, id, response), Search(f, id).value, Overlay(At(f, Search(f, id).value), response))
  {
    SearchSpec(f, id);
    var p := Search(f, id).value;
    var c := Overlay(At(f, p), response);
    UpdateAtPatched(f, p, c);
    UpdateAtOnlyPatched(f, p, c);
    forall q | ValidPath(f, q) && !IsPrefix(q, p) && !IsPrefix(p, q)
      ensures ValidPath(UpdateAt(f, p, c), q) && At(UpdateAt(f, p, c), q) == At(f, q)
    {
      UpdateAtElsewhere(f, p, c, q);
    }
  }

  /**
   * Editing copies the response onto the matched node, which stays where it
   * was: each field the response carries is overwritten, and each field it
   * leaves out (its replies, typically) is kept.
   */
  lemma EditOverlaysResponse(f: seq<Comment>, id: ObjectId, response: CommentPatch)
    requires id in Flatten(f)
    ensures Search(f, id).Some? && ValidPath(f, Search(f, id).value)
    ensures ValidPath(AfterEdit(f, id, response), Search(f, id).value)
    ensures var before := At(f, Search(f, id).value);
            var after := At(AfterEdit(f, id, response), Search(f, id).value);
            && before.id == id
            && Copies(after, before, response)
  {
    SearchSpec(f, id);
    UpdateAtPatched(f, Search(f, id).value, Overlay(At(f, Search(f, id).value), response));
  }

  /**
   * Replying appends the reply as the last child of the matched node; the
   * node keeps its own fields and earlier replies, the nodes elsewhere are
   * untouched, and the forest gains exactly the reply's comments.
   */
  lemma ReplyAppendsLastChild(f: seq<Comment>, id: ObjectId, reply: Comment)
    requires id in Flatten(f)
    ensures Search(f, id).Some? && ValidPath(f, Search(f, id).value)
    ensures ValidPath(AfterReply(f, id, reply), Search(f, id).value)
    ensures var before := At(f, Search(f, id).value);
            var after := At(AfterReply(f, id, reply), Search(f, id).value);
            after.children == before.children + [reply] && SameExceptChildren(after, before)
    ensures forall q :: ValidPath(f, q) && !IsPrefix(q, Search(f, id).value) && !IsPrefix(Search(f, id).value, q) ==>
              ValidPath(AfterReply(f, id, reply), q) && At(AfterReply(f, id, reply), q) == At(f, q)
    ensures multiset(Flatten(AfterReply(f, id, reply))) == multiset(Flatten(f)) + multiset(Subtree(reply))
    ensures var node := At(f, Search(f, id).value);
            OnlyPatched(f, AfterReply(f, id, reply), Search(f, id).value, node.(children := node.children + [reply]))
  {
    SearchSpec(f, id);
    var p := Search(f, id).value;
    var node := At(f, p);
    var grown := node.(children := node.children + [reply]);
    UpdateAtPatched(f, p, grown);
    forall q | ValidPath(f, q) && !IsPrefix(q, p) && !IsPrefix(p, q)
      ensures ValidPath(UpdateAt(f, p, grown), q) && At(UpdateAt(f, p, grown), q) == At(f, q)
    {
      UpdateAtElsewhere(f, p, grown, q);
    }
    UpdateAtFlatten(f, p, grown);
    UpdateAtOnlyPatched(f, p, grown);
    SubtreeOf(node);
    SubtreeOf(grown);
    FlattenAppend(node.children, [reply]);
    FlattenSingle(reply);
    Grow(multiset(Flatten(AfterReply(f, id, reply))), multiset(Flatten(f)), multiset{node.id},
         multiset(Flatten(node.children)), multiset(Subtree(reply)));
  }

  lemma Grow<T>(grown: multiset<T>, whole: multiset<T>, root: multiset<T>, kids: multiset<T>, extra: multiset<T>)
    requires grown + (root + kids) == whole + (root + (kids + extra))
    ensures grown == whole + extra
  {
    forall x ensures grown[x] == (whole + extra)[x] {
      assert (grown + (root + kids))[x] == (whole + (root + (kids + extra)))[x];
    }
  }

  /**
   * Deleting with a tombstone overwrites the matched node in place and
   * leaves every other node's own fields as they were; deleting without one
   * removes it from the list that holds it, keeps its siblings in order,
   * drops exactly the comments of its subtree, and touches no node outside
   * that list and the way to it.
   */
  lemma DeleteSplicesOrOverwrites(f: seq<Comment>, id: ObjectId, tombstone: Option<CommentPatch>)
    requires id in Flatten(f)
    ensures Search(f, id).Some? && ValidPath(f, Search(f, id).value)
    ensures tombstone.Some? ==>
              ValidPath(AfterDelete(f, id, tombstone), Search(f, id).value)
              && At(AfterDelete(f, id, tombstone), Search(f, id).value)
                 == Overlay(At(f, Search(f, id).value), tombstone.value)
    ensures tombstone.Some? ==>
              var p := Search(f, id).value;
              && (forall q :: ValidPath(f, q) && !IsPrefix(q, p) && !IsPrefix(p, q) ==>
                    ValidPath(AfterDelete(f, id, tombstone), q) && At(AfterDelete(f, id, tombstone), q) == At(f, q))
              && (forall q :: |q| > 0 && IsPrefix(q, p) && q != p ==>
                    ValidPath(f, q) && ValidPath(AfterDelete(f, id, tombstone), q)
                    && SameExceptChildren(At(AfterDelete(f, id, tombstone), q), At(f, q)))
    ensures tombstone.Some? ==>
              OnlyPatched(f, AfterDelete(f, id, tombstone), Search(f, id).value,
                          Overlay(At(f, Search(f, id).value), tombstone.value))
    ensures tombstone.None? && |Search(f, id).value| > 1 ==>
              var p := Search(f, id).value;
              var k := p[|p| - 1];
              && ValidPath(f, Parent(p)) && k < |At(f, Parent(p)).children|
              && OnlyPatched(f, AfterDelete(f, id, tombstone), Parent(p),
                             At(f, Parent(p)).(children := At(f, Parent(p)).children[..k] + At(f, Parent(p)).children[k + 1..]))
    ensures tombstone.None? && |Search(f, id).value| > 1 ==>
              var p := Search(f, id).value;
              && (forall q :: ValidPath(f, q) && !IsPrefix(q, Parent(p)) && !IsPrefix(Parent(p), q) ==>
                    ValidPath(AfterDelete(f, id, tombstone), q) && At(AfterDelete(f, id, tombstone), q) == At(f, q))
              && (forall q :: |q| > 0 && IsPrefix(q, Parent(p)) ==>
                    ValidPath(f, q) && ValidPath(AfterDelete(f, id, tombstone), q)
                    && SameExceptChildren(At(AfterDelete(f, id, tombstone), q), At(f, q)))
    ensures tombstone.None? ==>
              var p := Search(f, id).value;
              var k := p[|p| - 1];
              && (Parent(p) == [] || (ValidPath(f, Parent(p)) && ValidPath(AfterDelete(f, id, tombstone), Parent(p))))
              && k < |ListAt(f, Parent(p))|
              && ListAt(AfterDelete(f, id, tombstone), Parent(p))
                 == ListAt(f, Parent(p))[..k] + ListAt(f, Parent(p))[k + 1..]
              && multiset(Flatten(AfterDelete(f, id, tombstone))) + multiset(Subtree(At(f, p)))
                 == multiset(Flatten(f))
  {
    SearchSpec(f, id);
    var p := Search(f, id).value;
    if tombstone.Some? {
      var c := Overlay(At(f, p), tombstone.value);
      assert AfterDelete(f, id, tombstone) == UpdateAt(f, p, c);
      UpdateAtPatched(f, p, c);
      UpdateAtFrame(f, p, c);
      UpdateAtOnlyPatched(f, p, c);
    } else {
      assert AfterDelete(f, id, tombstone) == RemoveAt(f, p);
      RemoveAtSiblings(f, p);
      RemoveAtFlatten(f, p);
      if |p| > 1 {
        RemoveAtFrame(f, p);
        ParentPath(f, p);
        var parent := At(f, Parent(p));
        var k := p[|p| - 1];
        var shrunk := parent.(children := parent.children[..k] + parent.children[k + 1..]);
        assert RemoveAt(f, p) == UpdateAt(f, Parent(p), shrunk);
        UpdateAtOnlyPatched(f, Parent(p), shrunk);
      }
    }
  }

  /** The kind of player the page shows for a media URL. */
  datatype MediaKind = Video | Audio | Image

  predicate EndsWith(s: string, suffix: string) {
    |suffix| <= |s| && s[|s| - |suffix|..] == suffix
  }

  function KindOf(media: string): (kind: MediaKind) {
    if EndsWith(media, ".mp4") then Video
    else if EndsWith(media, ".mp3") then Audio
    else Image
  }

  /** A `.mp4` file is shown as video, a `.mp3` file as audio, and a file with neither extension as an image. */
  lemma KindOfExtension(name: string, other: string)
    requires |other| < 4 || (other[|other| - 4..] != ".mp4" && other[|other| - 4..] != ".mp3")
    ensures KindOf(name + ".mp4") == Video
    ensures KindOf(name + ".mp3") == Audio
    ensures KindOf(other) == Image
  {
    var v, a := name + ".mp4", name + ".mp3";
    assert v[|v| - 4..] == ".mp4";
    assert a[|a| - 4..] == ".mp3";
    assert a[|a| - 1] == '3';
  }

  /** The post as the page shows it: the document and its like count. */
  datatype ShownPost = ShownPost(doc: Post, likes: int)

  class Page {
    var post: ShownPost
    var comments: seq<Comment>

    constructor (post: ShownPost, comments: seq<Comment>)
      ensures this.post == post && this.comments == comments
    {
      this.post := post;
      this.comments := comments;
    }

    /** A like toggle moves the shown count by exactly the delta the server reports. */
    method HandleLike(change: int)
      modifies this
      ensures post == old(post).(likes := old(post).likes + change)
      ensures comments == old(comments)
    {
      post := post.(likes := post.likes + change);
    }

    /** An edit of the post replaces it only when the response carries a post. */
    method HandleUpdate(response: Option<ShownPost>)
      modifies this
      ensures post == if response.Some? then response.value else old(post)
      ensures comments == old(comments)
    {
      if response.Some? {
        post := response.value;
      }
    }

    /** A new root comment goes to the end of the root list. */
    method HandleAddComment(comment: Comment)
      modifies this
      ensures comments == old(comments) + [comment]
      ensures post == old(post)
    {
      comments := comments + [comment];
    }

    /**
     * Deletes comment `id` from the page. The request goes out only when the
     * forest has a node with that id; `tombstone` is what the server then
     * answers (a falsy answer is `None`).
     */
    method DeleteComment(id: ObjectId, tombstone: Option<CommentPatch>) returns (requested: bool)
      modifies this
      ensures requested <==> id in Flatten(old(comments))
      ensures comments == AfterDelete(old(comments), id, tombstone)
      ensures post == old(post)
    {
      var newComments := comments;
      var found := FindFirst(newComments, id);
      requested := found.Some?;
      if found.Some? {
        var p := found.value;
        if tombstone.Some? {
          newComments := UpdateAt(newComments, p, Overlay(At(newComments, p), tombstone.value));
        } else {
          newComments := RemoveAt(newComments, p);
        }
      }
      comments := newComments;
    }

    /** Edits comment `id` on the page with the server's answer `response`. */
    method UpdateComment(id: ObjectId, response: CommentPatch) returns (requested: bool)
      modifies this
      ensures requested <==> id in Flatten(old(comments))
      ensures comments == AfterEdit(old(comments), id, response)
      ensures post == old(post)
    {
      var newComments := comments;
      var found := FindFirst(newComments, id);
      requested := found.Some?;
      if found.Some? {
        var p := found.value;
        newComments := UpdateAt(newComments, p, Overlay(At(newComments, p), response));
      }
      comments := newComments;
    }

    /** Adds the server's `reply` under comment `id` on the page. */
    method AddComment(id: ObjectId, reply: Comment) returns (requested: bool)
      modifies this
      ensures requested <==> id in Flatten(old(comments))
      ensures comments == AfterReply(old(comments), id, reply)
      ensures post == old(post)
    {
      var newComments := comments;
      var found := FindFirst(newComments, id);
      requested := found.Some?;
      if found.Some? {
        var p := found.value;
        var node := At(newComments, p);
        newComments := UpdateAt(newComments, p, node.(children := node.children + [reply]));
      }
      comments := newComments;
    }
  }
}
