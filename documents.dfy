/**
 * The documents the application stores and exchanges: comments (which nest
 * into a forest), posts, follow edges and users. Identifiers are the
 * database's object ids, modelled as strings; timestamps are integers.
 */
module Documents {
  import opened Wrappers

  type ObjectId = string

  /** A comment with its replies. `deletedAt` is set when the comment is soft-deleted. */
  datatype Comment = Comment(
    id: ObjectId,
    author: ObjectId,
    text: string,
    deletedAt: Option<int>,
    children: seq<Comment>)

  /** The ids of the comments of a forest in pre-order: one entry per node. */
  function Flatten(f: seq<Comment>): (ids: seq<ObjectId>)
    decreases f
  {
    if f == [] then [] else Subtree(f[0]) + Flatten(f[1..])
  }

  /** The ids of a comment and of all its descendants. */
  function Subtree(c: Comment): (ids: seq<ObjectId>)
    decreases c
  {
    [c.id] + Flatten(c.children)
  }

  lemma {:induction false} FlattenAppend(a: seq<Comment>, b: seq<Comment>)
    ensures Flatten(a + b) == Flatten(a) + Flatten(b)
    decreases |a|
  {
    if a == [] {
      assert a + b == b;
    } else {
      assert (a + b)[0] == a[0];
      assert (a + b)[1..] == a[1..] + b;
      FlattenAppend(a[1..], b);
    }
  }

  lemma FlattenSingle(c: Comment)
    ensures Flatten([c]) == Subtree(c)
  {
    assert [c][1..] == [];
  }

  /** A directed follow edge: `sender` follows `receiver`. */
  datatype Follow = Follow(id: ObjectId, sender: ObjectId, receiver: ObjectId)

  /** A user with the follow edges it sends (`following`) and receives (`followers`). */
  datatype User = User(
    id: ObjectId,
    userName: string,
    following: seq<Follow>,
    followers: seq<Follow>)

  /**
   * A post. `cloudinaryId` names the media on the external host; `comments`
   * is the post's forest of root comments with their replies.
   */
  datatype Post = Post(
    id: ObjectId,
    title: string,
    media: string,
    cloudinaryId: string,
    caption: string,
    owner: ObjectId,
    edited: bool,
    createdAt: int,
    deletedAt: Option<int>,
    comments: seq<Comment>)
}
