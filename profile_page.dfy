/**
 * The profile page of the client: whether the logged-in user follows the
 * user shown, the request the follow button sends, and how the two users'
 * edge lists and the post list are rebuilt from the server's answers. The
 * page never changes a list in place; every update builds a new one.
 */
module ProfilePage {
  import opened Wrappers
  import opened Documents

  /** The first edge whose receiver is `userId`, as a search from the front finds it. */
  function FindFollow(following: seq<Follow>, userId: ObjectId): (r: Option<Follow>)
    ensures r.Some? ==> r.value in following && r.value.receiver == userId
    ensures r.None? ==> forall i :: 0 <= i < |following| ==> following[i].receiver != userId
  {
    if following == [] then None
    else if following[0].receiver == userId then Some(following[0])
    else FindFollow(following[1..], userId)
  }

  predicate IsFollowing(following: seq<Follow>, userId: ObjectId) {
    FindFollow(following, userId).Some?
  }

  /** The logged-in user follows the shown user exactly when one of its edges is received by that user. */
  lemma IsFollowingIff(following: seq<Follow>, userId: ObjectId)
    ensures IsFollowing(following, userId) <==> exists i :: 0 <= i < |following| && following[i].receiver == userId
  {
  }

  datatype HttpMethod = HttpPost | HttpDelete

  datatype Request = Request(verb: HttpMethod, url: string)

  /** The follow button's request: unfollow when already following, follow otherwise. */
  function FollowRequest(isFollowing: bool, userId: ObjectId): (req: Request) {
    Request(if isFollowing then HttpDelete else HttpPost,
            "/api/follow/" + (if isFollowing then "un" else "") + "followUser/" + userId)
  }

  lemma FollowRequestSpec(isFollowing: bool, userId: ObjectId)
    ensures isFollowing ==> FollowRequest(isFollowing, userId) == Request(HttpDelete, "/api/follow/unfollowUser/" + userId)
    ensures !isFollowing ==> FollowRequest(isFollowing, userId) == Request(HttpPost, "/api/follow/followUser/" + userId)
  {
    if isFollowing {
      assert "/api/follow/" + "un" + "followUser/" == "/api/follow/unfollowUser/";
    } else {
      assert "/api/follow/" + "" + "followUser/" == "/api/follow/followUser/";
    }
  }

  /** The edges other than those with id `edgeId`, in their order. */
  function WithoutEdge(edges: seq<Follow>, edgeId: ObjectId): (r: seq<Follow>)
    ensures forall e :: e in r <==> e in edges && e.id != edgeId
    ensures |r| <= |edges|
  {
    if edges == [] then []
    else (if edges[0].id == edgeId then [] else [edges[0]]) + WithoutEdge(edges[1..], edgeId)
  }

  /** The removal works list by list piece by piece, so the entries it keeps stay in order. */
  lemma {:induction false} WithoutEdgeAppend(a: seq<Follow>, b: seq<Follow>, edgeId: ObjectId)
    ensures WithoutEdge(a + b, edgeId) == WithoutEdge(a, edgeId) + WithoutEdge(b, edgeId)
    decreases |a|
  {
    if a == [] {
      assert a + b == b;
    } else {
      assert (a + b)[1..] == a[1..] + b;
      WithoutEdgeAppend(a[1..], b, edgeId);
    }
  }

  /** A list with no edge of that id is left as it is. */
  lemma {:induction false} WithoutAbsentEdge(edges: seq<Follow>, edgeId: ObjectId)
    requires forall i :: 0 <= i < |edges| ==> edges[i].id != edgeId
    ensures WithoutEdge(edges, edgeId) == edges
    decreases |edges|
  {
    if edges != [] {
      WithoutAbsentEdge(edges[1..], edgeId);
    }
  }

  /** The shown user and the logged-in user after the follow button's answer `edge`. */
  datatype Users = Users(shown: User, loggedIn: User)

  function FollowUnfollow(shown: User, loggedIn: User, edge: Follow): (r: Users)
    ensures r.shown.(followers := shown.followers) == shown
    ensures r.loggedIn.(following := loggedIn.following) == loggedIn
  {
    if IsFollowing(loggedIn.following, shown.id) then
      Users(shown.(followers := WithoutEdge(shown.followers, edge.id)),
            loggedIn.(following := WithoutEdge(loggedIn.following, edge.id)))
    else
      Users(shown.(followers := shown.followers + [edge]),
            loggedIn.(following := loggedIn.following + [edge]))
  }

  /** Following appends the new edge at the end of both lists, which each grow by one. */
  lemma FollowAppendsEdge(shown: User, loggedIn: User, edge: Follow)
    requires !IsFollowing(loggedIn.following, shown.id)
    ensures var r := FollowUnfollow(shown, loggedIn, edge);
            && |r.shown.followers| == |shown.followers| + 1
            && |r.loggedIn.following| == |loggedIn.following| + 1
            && r.shown.followers[..|shown.followers|] == shown.followers
            && r.loggedIn.following[..|loggedIn.following|] == loggedIn.following
            && r.shown.followers[|shown.followers|] == edge
            && r.loggedIn.following[|loggedIn.following|] == edge
  {
  }

  /** Unfollowing removes every entry with the answer's edge id from both lists and keeps all others. */
  lemma UnfollowRemovesEdge(shown: User, loggedIn: User, edge: Follow)
    requires IsFollowing(loggedIn.following, shown.id)
    ensures var r := FollowUnfollow(shown, loggedIn, edge);
            && (forall e :: e in r.shown.followers <==> e in shown.followers && e.id != edge.id)
            && (forall e :: e in r.loggedIn.following <==> e in loggedIn.following && e.id != edge.id)
  {
  }

  /**
   * Following with an edge whose id is new, received by the shown user, and
   * then pressing the button again, unfollows and restores both lists.
   */
  lemma FollowThenUnfollowRestores(shown: User, loggedIn: User, edge: Follow)
    requires !IsFollowing(loggedIn.following, shown.id)
    requires edge.receiver == shown.id
    requires forall i :: 0 <= i < |shown.followers| ==> shown.followers[i].id != edge.id
    requires forall i :: 0 <= i < |loggedIn.following| ==> loggedIn.following[i].id != edge.id
    ensures var once := FollowUnfollow(shown, loggedIn, edge);
            && IsFollowing(once.loggedIn.following, shown.id)
            && FollowUnfollow(once.shown, once.loggedIn, edge) == Users(shown, loggedIn)
  {
    var once := FollowUnfollow(shown, loggedIn, edge);
    IsFollowingIff(once.loggedIn.following, shown.id);
    assert once.loggedIn.following[|loggedIn.following|] == edge;
    WithoutEdgeAppend(shown.followers, [edge], edge.id);
    WithoutEdgeAppend(loggedIn.following, [edge], edge.id);
    WithoutAbsentEdge(shown.followers, edge.id);
    WithoutAbsentEdge(loggedIn.following, edge.id);
  }

  /** The post list after creating a post: the answer's post is appended only when the answer has one. */
  function AfterSubmit(posts: seq<Post>, answer: Option<Post>): (r: seq<Post>)
    ensures |r| == |posts| + (if answer.Some? then 1 else 0)
    ensures r[..|posts|] == posts
    ensures answer.Some? ==> r[|posts|] == answer.value
  {
    if answer.Some? then posts + [answer.value] else posts
  }
}
