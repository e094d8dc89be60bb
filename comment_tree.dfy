/**
 * Positions in a comment forest and the edits the post page makes at a
 * position: replace a node (which is also how a reply is added), or remove
 * it from the list that holds it. Also the breadth-first order in which the page visits
 * the nodes (roots first, then the children level by level) and the search
 * for the first node in that order that carries a given id.
 *
 * A node is addressed by a path: the index in the root list, then the index
 * in that node's reply list, and so on.
 */
module CommentTree {
  import opened Wrappers
  import opened Documents

  type Path = seq<nat>

  predicate ValidPath(f: seq<Comment>, p: Path)
    decreases |p|
  {
    |p| > 0 && p[0] < |f| && (|p| == 1 || ValidPath(f[p[0]].children, p[1..]))
  }

  /** The node at `p`. */
  function At(f: seq<Comment>, p: Path): (c: Comment)
    requires ValidPath(f, p)
    decreases |p|
  {
    if |p| == 1 then f[p[0]] else At(f[p[0]].children, p[1..])
  }

  predicate IsPrefix(a: Path, b: Path) {
    |a| <= |b| && b[..|a|] == a
  }

  function Parent(p: Path): (pp: Path)
    requires |p| > 0
  {
    p[..|p| - 1]
  }

  /** The list of comments at `q`: the root list for the empty path, otherwise the replies of the node at `q`. */
  function ListAt(f: seq<Comment>, q: Path): (list: seq<Comment>)
    requires q == [] || ValidPath(f, q)
  {
    if q == [] then f else At(f, q).children
  }

  /** Two comments agree on every field except their replies. */
  predicate SameExceptChildren(a: Comment, b: Comment) {
    a.id == b.id && a.author == b.author && a.text == b.text && a.deletedAt == b.deletedAt
  }

  // ---------------------------------------------------------------------------
  // Paths into children and parents

  lemma {:induction false} ChildPath(f: seq<Comment>, p: Path, i: nat)
    requires ValidPath(f, p) && i < |At(f, p).children|
    ensures ValidPath(f, p + [i]) && At(f, p + [i]) == At(f, p).children[i]
    decreases |p|
  {
    if |p| == 1 {
      assert (p + [i])[1..] == [i];
    } else {
      assert (p + [i])[1..] == p[1..] + [i];
      ChildPath(f[p[0]].children, p[1..], i);
    }
  }

  lemma {:induction false} ParentPath(f: seq<Comment>, p: Path)
    requires ValidPath(f, p) && |p| > 1
    ensures ValidPath(f, Parent(p))
    ensures p[|p| - 1] < |At(f, Parent(p)).children|
    ensures At(f, p) == At(f, Parent(p)).children[p[|p| - 1]]
    decreases |p|
  {
    if |p| > 2 {
      assert Parent(p)[1..] == Parent(p[1..]);
      ParentPath(f[p[0]].children, p[1..]);
    }
  }

  // ---------------------------------------------------------------------------
  // Replacing the node at a path

  /** The forest with the node at `p` replaced by `c`. */
  function UpdateAt(f: seq<Comment>, p: Path, c: Comment): (r: seq<Comment>)
    requires ValidPath(f, p)
    ensures |r| == |f|
    decreases |p|
  {
    if |p| == 1 then f[p[0] := c]
    else f[p[0] := f[p[0]].(children := UpdateAt(f[p[0]].children, p[1..], c))]
  }

  /** After the update the path still leads somewhere, and to `c`. */
  lemma {:induction false} UpdateAtPatched(f: seq<Comment>, p: Path, c: Comment)
    requires ValidPath(f, p)
    ensures ValidPath(UpdateAt(f, p, c), p) && At(UpdateAt(f, p, c), p) == c
    decreases |p|
  {
    if |p| > 1 {
      UpdateAtPatched(f[p[0]].children, p[1..], c);
    }
  }

  /** Every node that is neither on the way to `p` nor below it is untouched. */
  lemma {:induction false} UpdateAtElsewhere(f: seq<Comment>, p: Path, c: Comment, q: Path)
    requires ValidPath(f, p) && ValidPath(f, q)
    requires !IsPrefix(p, q) && !IsPrefix(q, p)
    ensures ValidPath(UpdateAt(f, p, c), q) && At(UpdateAt(f, p, c), q) == At(f, q)
    decreases |p|
  {
    var r := UpdateAt(f, p, c);
    if q[0] != p[0] {
      assert r[q[0]] == f[q[0]];
      AtDependsOnHead(f, r, q);
    } else {
      UpdateAtElsewhere(f[p[0]].children, p[1..], c, q[1..]);
    }
  }

  lemma AtDependsOnHead(f: seq<Comment>, g: seq<Comment>, q: Path)
    requires ValidPath(f, q) && q[0] < |g| && g[q[0]] == f[q[0]]
    ensures ValidPath(g, q) && At(g, q) == At(f, q)
  {
  }

  /** The nodes on the way to `p` keep all their own fields and the number of their replies. */
  lemma {:induction false} UpdateAtAncestors(f: seq<Comment>, p: Path, c: Comment, q: Path)
    requires ValidPath(f, p) && |q| > 0 && IsPrefix(q, p) && q != p
    ensures ValidPath(f, q) && ValidPath(UpdateAt(f, p, c), q)
    ensures SameExceptChildren(At(UpdateAt(f, p, c), q), At(f, q))
    ensures |At(UpdateAt(f, p, c), q).children| == |At(f, q).children|
    decreases |p|
  {
    assert q[0] == p[0] by { assert q == p[..|q|]; }
    if |q| > 1 {
      assert q[1..] == p[1..][..|q| - 1];
      UpdateAtAncestors(f[p[0]].children, p[1..], c, q[1..]);
    }
  }

  /** What replacing a node keeps: all nodes off its line, and the own fields of its ancestors. */
  lemma UpdateAtFrame(f: seq<Comment>, p: Path, c: Comment)
    requires ValidPath(f, p)
    ensures forall q :: ValidPath(f, q) && !IsPrefix(q, p) && !IsPrefix(p, q) ==>
              ValidPath(UpdateAt(f, p, c), q) && At(UpdateAt(f, p, c), q) == At(f, q)
    ensures forall q :: |q| > 0 && IsPrefix(q, p) && q != p ==>
              ValidPath(f, q) && ValidPath(UpdateAt(f, p, c), q) && SameExceptChildren(At(UpdateAt(f, p, c), q), At(f, q))
  {
    forall q | ValidPath(f, q) && !IsPrefix(q, p) && !IsPrefix(p, q)
      ensures ValidPath(UpdateAt(f, p, c), q) && At(UpdateAt(f, p, c), q) == At(f, q)
    {
      UpdateAtElsewhere(f, p, c, q);
    }
    forall q | |q| > 0 && IsPrefix(q, p) && q != p
      ensures ValidPath(f, q) && ValidPath(UpdateAt(f, p, c), q) && SameExceptChildren(At(UpdateAt(f, p, c), q), At(f, q))
    {
      UpdateAtAncestors(f, p, c, q);
    }
  }

  /** The ids of the forest change by exactly the subtree taken out and the one put in. */
  lemma {:induction false} UpdateAtFlatten(f: seq<Comment>, p: Path, c: Comment)
    requires ValidPath(f, p)
    ensures multiset(Flatten(UpdateAt(f, p, c))) + multiset(Subtree(At(f, p)))
         == multiset(Flatten(f)) + multiset(Subtree(c))
    decreases |p|
  {
    var k := p[0];
    if |p| == 1 {
      FlattenReplace(f, k, c);
    } else {
      var kids := f[k].children;
      var node := f[k].(children := UpdateAt(kids, p[1..], c));
      assert UpdateAt(f, p, c) == f[k := node];
      assert At(f, p) == At(kids, p[1..]);
      FlattenReplace(f, k, node);
      UpdateAtFlatten(kids, p[1..], c);
      SubtreeOf(node);
      SubtreeOf(f[k]);
      Rebalance(multiset(Flatten(f[k := node])), multiset(Flatten(f)), multiset{node.id},
                multiset(Flatten(kids)), multiset(Flatten(node.children)),
                multiset(Subtree(At(kids, p[1..]))), multiset(Subtree(c)));
    }
  }

  /**
   * `g` is `f` with the node at `p` replaced by `c` and nothing else changed:
   * the root list keeps its length, `p` leads to `c`, every node off `p`'s
   * line is as it was, every ancestor keeps its own fields and its number of
   * replies, and the ids change by exactly the subtree taken out and the one
   * put in.
   */
  ghost predicate OnlyPatched(f: seq<Comment>, g: seq<Comment>, p: Path, c: Comment)
    requires ValidPath(f, p)
  {
    && |g| == |f|
    && ValidPath(g, p) && At(g, p) == c
    && (forall q :: ValidPath(f, q) && !IsPrefix(q, p) && !IsPrefix(p, q) ==> ValidPath(g, q) && At(g, q) == At(f, q))
    && (forall q :: |q| > 0 && IsPrefix(q, p) && q != p ==>
          ValidPath(f, q) && ValidPath(g, q) && SameExceptChildren(At(g, q), At(f, q))
          && |At(g, q).children| == |At(f, q).children|)
    && multiset(Flatten(g)) + multiset(Subtree(At(f, p))) == multiset(Flatten(f)) + multiset(Subtree(c))
  }

  /** `UpdateAt` replaces the one node and changes nothing else. */
  lemma UpdateAtOnlyPatched(f: seq<Comment>, p: Path, c: Comment)
    requires ValidPath(f, p)
    ensures OnlyPatched(f, UpdateAt(f, p, c), p, c)
  {
    var g := UpdateAt(f, p, c);
    UpdateAtPatched(f, p, c);
    UpdateAtFrame(f, p, c);
    forall q | |q| > 0 && IsPrefix(q, p) && q != p
      ensures ValidPath(f, q) && ValidPath(g, q) && |At(g, q).children| == |At(f, q).children|
    {
      UpdateAtAncestors(f, p, c, q);
    }
    UpdateAtFlatten(f, p, c);
  }

  /** Multiset bookkeeping for a replacement one level down. */
  lemma Rebalance<T>(withNode: multiset<T>, rest: multiset<T>, root: multiset<T>,
                     oldKids: multiset<T>, newKids: multiset<T>, gone: multiset<T>, come: multiset<T>)
    requires withNode + (root + oldKids) == rest + (root + newKids)
    requires newKids + gone == oldKids + come
    ensures withNode + gone == rest + come
  {
    forall x ensures (withNode + gone)[x] == (rest + come)[x] {
      assert (withNode + (root + oldKids))[x] == (rest + (root + newKids))[x];
      assert (newKids + gone)[x] == (oldKids + come)[x];
    }
  }

  lemma SubtreeOf(c: Comment)
    ensures multiset(Subtree(c)) == multiset{c.id} + multiset(Flatten(c.children))
  {
  }

  /** Replacing one root changes the ids by exactly that root's subtree. */
  lemma FlattenReplace(f: seq<Comment>, k: nat, c: Comment)
    requires k < |f|
    ensures multiset(Flatten(f[k := c])) + multiset(Subtree(f[k])) == multiset(Flatten(f)) + multiset(Subtree(c))
  {
    var r := f[k := c];
    FlattenAround(f, k);
    FlattenAround(r, k);
    assert r[..k] == f[..k] && r[k + 1..] == f[k + 1..];
  }

  /** The ids of a forest split around its `k`-th root. */
  lemma FlattenAround(f: seq<Comment>, k: nat)
    requires k < |f|
    ensures Flatten(f) == Flatten(f[..k]) + Subtree(f[k]) + Flatten(f[k + 1..])
  {
    assert f == f[..k] + f[k..];
    FlattenAppend(f[..k], f[k..]);
    assert f[k..][0] == f[k] && f[k..][1..] == f[k + 1..];
  }

  // ---------------------------------------------------------------------------
  // Removing the node at a path

  /** The forest with the node at `p` spliced out of the list that holds it. */
  function RemoveAt(f: seq<Comment>, p: Path): (r: seq<Comment>)
    requires ValidPath(f, p)
  {
    var k := p[|p| - 1];
    if |p| == 1 then f[..k] + f[k + 1..]
    else
      ParentPath(f, p);
      var parent := At(f, Parent(p));
      UpdateAt(f, Parent(p), parent.(children := parent.children[..k] + parent.children[k + 1..]))
  }

  /**
   * Removing the node at `p` deletes it from the list that holds it and
   * keeps the order of its siblings.
   */
  lemma RemoveAtSiblings(f: seq<Comment>, p: Path)
    requires ValidPath(f, p)
    ensures Parent(p) == [] || (ValidPath(f, Parent(p)) && ValidPath(RemoveAt(f, p), Parent(p)))
    ensures p[|p| - 1] < |ListAt(f, Parent(p))|
    ensures ListAt(RemoveAt(f, p), Parent(p))
         == ListAt(f, Parent(p))[..p[|p| - 1]] + ListAt(f, Parent(p))[p[|p| - 1] + 1..]
  {
    if |p| > 1 {
      ParentPath(f, p);
      var parent := At(f, Parent(p));
      var k := p[|p| - 1];
      UpdateAtPatched(f, Parent(p), parent.(children := parent.children[..k] + parent.children[k + 1..]));
    }
  }

  /** Removing the node at `p` leaves every ancestor's own fields as they were. */
  lemma RemoveAtAncestors(f: seq<Comment>, p: Path, q: Path)
    requires ValidPath(f, p) && |q| > 0 && IsPrefix(q, Parent(p))
    ensures ValidPath(f, q) && ValidPath(RemoveAt(f, p), q)
    ensures SameExceptChildren(At(RemoveAt(f, p), q), At(f, q))
  {
    ParentPath(f, p);
    var pp := Parent(p);
    var parent := At(f, pp);
    var k := p[|p| - 1];
    var shrunk := parent.(children := parent.children[..k] + parent.children[k + 1..]);
    if q == pp {
      UpdateAtPatched(f, pp, shrunk);
    } else {
      UpdateAtAncestors(f, pp, shrunk, q);
    }
  }

  /**
   * Removing a nested node touches only the list that holds it and the way
   * to that list: every node neither above nor below its parent is as it was.
   */
  lemma RemoveAtElsewhere(f: seq<Comment>, p: Path, q: Path)
    requires ValidPath(f, p) && |p| > 1 && ValidPath(f, q)
    requires !IsPrefix(q, Parent(p)) && !IsPrefix(Parent(p), q)
    ensures ValidPath(RemoveAt(f, p), q) && At(RemoveAt(f, p), q) == At(f, q)
  {
    ParentPath(f, p);
    var parent := At(f, Parent(p));
    var k := p[|p| - 1];
    var shrunk := parent.(children := parent.children[..k] + parent.children[k + 1..]);
    assert RemoveAt(f, p) == UpdateAt(f, Parent(p), shrunk);
    UpdateAtElsewhere(f, Parent(p), shrunk, q);
  }

  /** What removing a nested node keeps: all nodes outside its parent's subtree, and the own fields of the parent and its ancestors. */
  lemma RemoveAtFrame(f: seq<Comment>, p: Path)
    requires ValidPath(f, p) && |p| > 1
    ensures forall q :: ValidPath(f, q) && !IsPrefix(q, Parent(p)) && !IsPrefix(Parent(p), q) ==>
              ValidPath(RemoveAt(f, p), q) && At(RemoveAt(f, p), q) == At(f, q)
    ensures forall q :: |q| > 0 && IsPrefix(q, Parent(p)) ==>
              ValidPath(f, q) && ValidPath(RemoveAt(f, p), q) && SameExceptChildren(At(RemoveAt(f, p), q), At(f, q))
  {
    forall q | ValidPath(f, q) && !IsPrefix(q, Parent(p)) && !IsPrefix(Parent(p), q)
      ensures ValidPath(RemoveAt(f, p), q) && At(RemoveAt(f, p), q) == At(f, q)
    {
      RemoveAtElsewhere(f, p, q);
    }
    forall q | |q| > 0 && IsPrefix(q, Parent(p))
      ensures ValidPath(f, q) && ValidPath(RemoveAt(f, p), q) && SameExceptChildren(At(RemoveAt(f, p), q), At(f, q))
    {
      RemoveAtAncestors(f, p, q);
    }
  }

  /** The ids that disappear when the node at `p` is removed are exactly those of its subtree. */
  lemma RemoveAtFlatten(f: seq<Comment>, p: Path)
    requires ValidPath(f, p)
    ensures multiset(Flatten(RemoveAt(f, p))) + multiset(Subtree(At(f, p))) == multiset(Flatten(f))
  {
    var k := p[|p| - 1];
    if |p| == 1 {
      FlattenAround(f, k);
      FlattenAppend(f[..k], f[k + 1..]);
    } else {
      ParentPath(f, p);
      var pp := Parent(p);
      var parent := At(f, pp);
      var kids := parent.children;
      var shrunk := parent.(children := kids[..k] + kids[k + 1..]);
      UpdateAtFlatten(f, pp, shrunk);
      FlattenAround(kids, k);
      FlattenAppend(kids[..k], kids[k + 1..]);
      SubtreeOf(parent);
      SubtreeOf(shrunk);
      Unsplice(multiset(Flatten(RemoveAt(f, p))), multiset(Flatten(f)), multiset{parent.id},
               multiset(Flatten(kids[..k])), multiset(Subtree(kids[k])), multiset(Flatten(kids[k + 1..])));
    }
  }

  /** Multiset bookkeeping for a removal one level down. */
  lemma Unsplice<T>(removed: multiset<T>, whole: multiset<T>, root: multiset<T>,
                    before: multiset<T>, gone: multiset<T>, after: multiset<T>)
    requires removed + (root + (before + gone + after)) == whole + (root + (before + after))
    ensures removed + gone == whole
  {
    forall x ensures (removed + gone)[x] == whole[x] {
      assert (removed + (root + (before + gone + after)))[x] == (whole + (root + (before + after)))[x];
    }
  }

  // ---------------------------------------------------------------------------
  // Breadth-first order

  predicate AllValid(f: seq<Comment>, q: seq<Path>) {
    forall i :: 0 <= i < |q| ==> ValidPath(f, q[i])
  }

  function Nodes(f: seq<Comment>, q: seq<Path>): (ns: seq<Comment>)
    requires AllValid(f, q)
    ensures |ns| == |q|
  {
    seq(|q|, i requires 0 <= i < |q| => At(f, q[i]))
  }

  function IdsAlong(f: seq<Comment>, q: seq<Path>): (ids: seq<ObjectId>)
    requires AllValid(f, q)
    ensures |ids| == |q|
  {
    seq(|q|, i requires 0 <= i < |q| => At(f, q[i]).id)
  }

  function RootPaths(f: seq<Comment>): (q: seq<Path>)
    ensures AllValid(f, q) && Nodes(f, q) == f
  {
    seq(|f|, i => [i])
  }

  function ChildPaths(f: seq<Comment>, p: Path): (ps: seq<Path>)
    requires ValidPath(f, p)
  {
    seq(|At(f, p).children|, i => p + [i])
  }

  /** The queue after one step: the head taken off the front, its replies added at the back. */
  function Next(f: seq<Comment>, q: seq<Path>): (n: seq<Path>)
    requires AllValid(f, q) && q != []
  {
    q[1..] + ChildPaths(f, q[0])
  }

  lemma NextSpec(f: seq<Comment>, q: seq<Path>)
    requires AllValid(f, q) && q != []
    ensures AllValid(f, Next(f, q))
    ensures Nodes(f, Next(f, q)) == Nodes(f, q[1..]) + At(f, q[0]).children
    ensures Flatten(Nodes(f, q)) == [At(f, q[0]).id] + Flatten(At(f, q[0]).children) + Flatten(Nodes(f, q[1..]))
  {
    var n := Next(f, q);
    var kids := At(f, q[0]).children;
    forall i | 0 <= i < |n| ensures ValidPath(f, n[i]) && At(f, n[i]) == (Nodes(f, q[1..]) + kids)[i] {
      if i >= |q| - 1 {
        ChildPath(f, q[0], i - (|q| - 1));
      }
    }
    assert Nodes(f, q) == [At(f, q[0])] + Nodes(f, q[1..]);
    FlattenAppend([At(f, q[0])], Nodes(f, q[1..]));
    FlattenSingle(At(f, q[0]));
  }

  /**
   * The paths visited by a breadth-first walk that starts from queue `q`:
   * take the head, append its replies, repeat until the queue is empty.
   * Every node below the queue's paths is visited, one step per node.
   */
  function BfsFrom(f: seq<Comment>, q: seq<Path>): (r: seq<Path>)
    requires AllValid(f, q)
    ensures AllValid(f, r) && |r| == |Flatten(Nodes(f, q))|
    decreases |Flatten(Nodes(f, q))|
  {
    if q == [] then []
    else
      NextSpec(f, q);
      FlattenAppend(Nodes(f, q[1..]), At(f, q[0]).children);
      [q[0]] + BfsFrom(f, Next(f, q))
  }

  /** The order in which the post page visits the forest. */
  function BfsOrder(f: seq<Comment>): (r: seq<Path>)
    ensures AllValid(f, r)
  {
    BfsFrom(f, RootPaths(f))
  }

  /** The walk from `q` visits the ids below `q`, each as often as nodes there carry it. */
  lemma {:induction false} BfsVisitsEachNodeOnce(f: seq<Comment>, q: seq<Path>)
    requires AllValid(f, q)
    ensures multiset(IdsAlong(f, BfsFrom(f, q))) == multiset(Flatten(Nodes(f, q)))
    decreases |Flatten(Nodes(f, q))|
  {
    if q != [] {
      NextSpec(f, q);
      var n := Next(f, q);
      var kids := At(f, q[0]).children;
      var rest := Nodes(f, q[1..]);
      FlattenAppend(rest, kids);
      BfsVisitsEachNodeOnce(f, n);
      var tail := BfsFrom(f, n);
      assert BfsFrom(f, q) == [q[0]] + tail;
      IdsAlongCons(f, q[0], tail);
      assert multiset(Flatten(Nodes(f, n))) == multiset(Flatten(rest)) + multiset(Flatten(kids));
    }
  }

  lemma IdsAlongCons(f: seq<Comment>, p: Path, q: seq<Path>)
    requires ValidPath(f, p) && AllValid(f, q)
    ensures AllValid(f, [p] + q) && IdsAlong(f, [p] + q) == [At(f, p).id] + IdsAlong(f, q)
  {
  }

  /** The breadth-first order takes one step per node and visits every id of the forest, each as often as nodes carry it. */
  lemma BfsOrderCoversForest(f: seq<Comment>)
    ensures multiset(IdsAlong(f, BfsOrder(f))) == multiset(Flatten(f))
    ensures |BfsOrder(f)| == |Flatten(f)|
  {
    BfsVisitsEachNodeOnce(f, RootPaths(f));
  }

  /**
   * A queue is layered when the depths of its paths never decrease from
   * front to back and span at most two adjacent levels.
   */
  predicate Layered(q: seq<Path>) {
    forall i, j :: 0 <= i < j < |q| ==> |q[i]| <= |q[j]| <= |q[i]| + 1
  }

  /** Depths never decrease along `ps`. */
  predicate DepthOrdered(ps: seq<Path>) {
    forall i, j :: 0 <= i < j < |ps| ==> |ps[i]| <= |ps[j]|
  }

  /** One step keeps a queue layered: the replies appended are one level below the head. */
  lemma NextLayered(f: seq<Comment>, q: seq<Path>)
    requires AllValid(f, q) && q != [] && Layered(q)
    ensures Layered(Next(f, q))
    ensures Next(f, q) != [] ==> |q[0]| <= |Next(f, q)[0]|
  {
    var n := Next(f, q);
    forall i, j | 0 <= i < j < |n| ensures |n[i]| <= |n[j]| <= |n[i]| + 1 {
      if j >= |q| - 1 {
        assert |n[j]| == |q[0]| + 1;
        if i < |q| - 1 {
          assert n[i] == q[i + 1];
        }
      } else {
        assert n[i] == q[i + 1] && n[j] == q[j + 1];
      }
    }
    if n != [] && |q| == 1 {
      assert |n[0]| == |q[0]| + 1;
    }
  }

  /** One step of the walk: the head is visited, then the walk goes on from the next queue, which is smaller below. */
  lemma BfsFromStep(f: seq<Comment>, q: seq<Path>)
    requires AllValid(f, q) && q != []
    ensures AllValid(f, Next(f, q))
    ensures |Flatten(Nodes(f, Next(f, q)))| < |Flatten(Nodes(f, q))|
    ensures BfsFrom(f, q) == [q[0]] + BfsFrom(f, Next(f, q))
  {
    NextSpec(f, q);
    FlattenAppend(Nodes(f, q[1..]), At(f, q[0]).children);
  }

  /** The walk from `q` first visits the queue itself, in its order. */
  lemma {:induction false} BfsFromStartsWithQueue(f: seq<Comment>, q: seq<Path>)
    requires AllValid(f, q)
    ensures |q| <= |BfsFrom(f, q)| && BfsFrom(f, q)[..|q|] == q
    decreases |Flatten(Nodes(f, q))|
  {
    if q != [] {
      BfsFromStep(f, q);
      var n := Next(f, q);
      BfsFromStartsWithQueue(f, n);
      assert n[..|q| - 1] == q[1..];
    }
  }

  /** Putting a path in front of a depth-ordered sequence no shallower than it keeps the order. */
  lemma DepthOrderedCons(x: Path, tail: seq<Path>)
    requires DepthOrdered(tail) && forall k :: 0 <= k < |tail| ==> |x| <= |tail[k]|
    ensures DepthOrdered([x] + tail)
    ensures forall k :: 0 <= k < |[x] + tail| ==> |x| <= |([x] + tail)[k]|
  {
  }

  /** From a layered queue the walk never goes back up a level, and never above the head's level. */
  lemma {:induction false} BfsFromByDepth(f: seq<Comment>, q: seq<Path>)
    requires AllValid(f, q) && Layered(q)
    ensures DepthOrdered(BfsFrom(f, q))
    ensures q != [] ==> forall k :: 0 <= k < |BfsFrom(f, q)| ==> |q[0]| <= |BfsFrom(f, q)[k]|
    decreases |Flatten(Nodes(f, q))|
  {
    if q != [] {
      BfsFromStep(f, q);
      var n := Next(f, q);
      NextLayered(f, q);
      BfsFromByDepth(f, n);
      DepthOrderedCons(q[0], BfsFrom(f, n));
    }
  }

  /**
   * The post page's order is breadth-first: the roots come first, in their
   * order, and the depth of the visited nodes never decreases, so every
   * level is visited before the next one.
   */
  lemma BfsOrderByDepth(f: seq<Comment>)
    ensures |f| <= |BfsOrder(f)| && BfsOrder(f)[..|f|] == RootPaths(f)
    ensures forall i, j :: 0 <= i < j < |BfsOrder(f)| ==> |BfsOrder(f)[i]| <= |BfsOrder(f)[j]|
  {
    BfsFromStartsWithQueue(f, RootPaths(f));
    BfsFromByDepth(f, RootPaths(f));
  }

  /** The first index in `ps` whose node carries `id`. */
  function FirstMatch(f: seq<Comment>, ps: seq<Path>, id: ObjectId): (r: Option<nat>)
    requires AllValid(f, ps)
    ensures r.Some? ==> r.value < |ps| && At(f, ps[r.value]).id == id
    ensures r.Some? ==> forall j :: 0 <= j < r.value ==> At(f, ps[j]).id != id
    ensures r.None? ==> forall j :: 0 <= j < |ps| ==> At(f, ps[j]).id != id
  {
    if ps == [] then None
    else if At(f, ps[0]).id == id then Some(0)
    else match FirstMatch(f, ps[1..], id)
      case None => None
      case Some(k) => Some(k + 1)
  }

  /** The path of the first node in breadth-first order whose id is `id`, if any. */
  function Search(f: seq<Comment>, id: ObjectId): (found: Option<Path>)
  {
    match FirstMatch(f, BfsOrder(f), id)
    case None => None
    case Some(k) => Some(BfsOrder(f)[k])
  }

  /**
   * The search fails exactly when no comment of the forest has the id;
   * when it succeeds it lands on a node with the id and no node earlier in
   * breadth-first order has it.
   */
  lemma SearchSpec(f: seq<Comment>, id: ObjectId)
    ensures Search(f, id).None? <==> id !in Flatten(f)
    ensures Search(f, id).Some? ==> ValidPath(f, Search(f, id).value) && At(f, Search(f, id).value).id == id
    ensures Search(f, id).Some? ==>
              exists k :: 0 <= k < |BfsOrder(f)| && BfsOrder(f)[k] == Search(f, id).value
                          && forall j :: 0 <= j < k ==> At(f, BfsOrder(f)[j]).id != id
  {
    var order := BfsOrder(f);
    BfsOrderCoversForest(f);
    var ids := IdsAlong(f, order);
    assert id in Flatten(f) <==> id in ids by {
      assert id in Flatten(f) <==> id in multiset(Flatten(f));
      assert id in ids <==> id in multiset(ids);
    }
    match FirstMatch(f, order, id)
    case None =>
      forall j | 0 <= j < |ids| ensures ids[j] != id {
        assert ids[j] == At(f, order[j]).id;
      }
    case Some(k) =>
      assert ids[k] == id;
  }
}
