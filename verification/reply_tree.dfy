/**
 The forest of posts and replies (main.go:21-29) as an immutable value:
 a post is found by a position, a list of indices whose first picks a
 root and whose later ones each pick a reply of the node reached so far.
 */
module ReplyTree {
  import opened Options
  import Decimal
  import PathCodec

  /** `time.Now()` at the moment of a request; the model never inspects it. */
  type Timestamp = int

  /** A post or a reply; `replies` are kept in the order they were added. */
  datatype Post = Post(id: string, name: string, message: string, time: Timestamp, replies: seq<Post>)

  /**
   The node at `path` below the list `posts` (the forest, or one post's
   replies); `None` for the empty path and for any index that is negative
   or past the end of the list it indexes.
   */
  function Resolve(posts: seq<Post>, path: seq<int>): (r: Option<Post>)
    ensures r.Some? ==> |path| >= 1 && 0 <= path[0] < |posts|
    ensures r.Some? ==> forall i :: 0 <= i < |path| ==> path[i] >= 0
    ensures |path| == 1 && 0 <= path[0] < |posts| ==> r == Some(posts[path[0]])
    decreases |path|
  {
    if |path| == 0 || !(0 <= path[0] < |posts|) then None
    else if |path| == 1 then Some(posts[path[0]])
    else
      var r := Resolve(posts[path[0]].replies, path[1..]);
      assert r.Some? ==> forall i :: 1 <= i < |path| ==> path[i] == path[1..][i - 1];
      r
  }

  /** Resolving a longer position resolves its first part, then the rest below that node. */
  lemma {:induction false} ResolveAppend(posts: seq<Post>, p: seq<int>, q: seq<int>)
    requires |p| >= 1 && |q| >= 1
    ensures Resolve(posts, p).None? ==> Resolve(posts, p + q).None?
    ensures Resolve(posts, p).Some? ==> Resolve(posts, p + q) == Resolve(Resolve(posts, p).value.replies, q)
    decreases |p|
  {
    assert (p + q)[0] == p[0];
    if 0 <= p[0] < |posts| {
      if |p| == 1 {
        assert (p + q)[1..] == q;
      } else {
        assert (p + q)[1..] == p[1..] + q;
        ResolveAppend(posts[p[0]].replies, p[1..], q);
      }
    }
  }

  /**
   Step 2 of the reply branch (main.go:73-80): start at the root the first
   index picks and follow each later index into the current node's replies.
   Where the source indexes out of range (and the request fails before any
   change), the walk answers `None`.
   */
  method FindParent(forest: seq<Post>, ids: seq<int>) returns (parent: Option<Post>)
    ensures parent == Resolve(forest, ids)
  {
    if |ids| == 0 || !(0 <= ids[0] < |forest|) {
      return None;
    }
    var cur := forest[ids[0]];
    var i := 1;
    while i < |ids|
      invariant 1 <= i <= |ids|
      invariant Resolve(forest, ids[..i]) == Some(cur)
    {
      ResolveAppend(forest, ids[..i], [ids[i]]);
      assert ids[..i] + [ids[i]] == ids[..i + 1];
      if i + 1 < |ids| {
        ResolveAppend(forest, ids[..i + 1], ids[i + 1..]);
        assert ids[..i + 1] + ids[i + 1..] == ids;
      } else {
        assert ids[..i + 1] == ids;
      }
      if !(0 <= ids[i] < |cur.replies|) {
        return None;
      }
      cur := cur.replies[ids[i]];
      i := i + 1;
    }
    assert ids[..|ids|] == ids;
    return Some(cur);
  }

  /**
   Step 5 of the reply branch (main.go:104): the list with `child` added
   as the last reply of the node at `path`.
   */
  function AppendAt(posts: seq<Post>, path: seq<int>, child: Post): (r: seq<Post>)
    requires Resolve(posts, path).Some?
    ensures |r| == |posts|
    ensures var parent := Resolve(posts, path).value;
      Resolve(r, path) == Some(parent.(replies := parent.replies + [child]))
    decreases |path|
  {
    var i := path[0];
    var node := posts[i];
    if |path| == 1 then posts[i := node.(replies := node.replies + [child])]
    else posts[i := node.(replies := AppendAt(node.replies, path[1..], child))]
  }

  /** `q` is `p` or an ancestor position of `p`. */
  predicate IsPrefix(q: seq<int>, p: seq<int>) {
    |q| <= |p| && p[..|q|] == q
  }

  /** Adding replies after the existing ones leaves every existing position resolving as before. */
  lemma ResolveExtendList(xs: seq<Post>, ys: seq<Post>, q: seq<int>)
    requires Resolve(xs, q).Some?
    ensures Resolve(xs + ys, q) == Resolve(xs, q)
  {
  }

  /** After an append, every node that existed and is not on the path to the parent is unchanged. */
  lemma {:induction false} AppendAtKeepsOthers(posts: seq<Post>, path: seq<int>, child: Post, q: seq<int>)
    requires Resolve(posts, path).Some?
    requires Resolve(posts, q).Some? && !IsPrefix(q, path)
    ensures Resolve(AppendAt(posts, path, child), q) == Resolve(posts, q)
    decreases |path|
  {
    var r := AppendAt(posts, path, child);
    var i := path[0];
    if q[0] != i {
      assert r[q[0]] == posts[q[0]];
    } else {
      var node := posts[i];
      if |path| == 1 {
        ResolveExtendList(node.replies, [child], q[1..]);
      } else {
        assert q == [i] + q[1..];
        assert |q| <= |path| ==> path[..|q|] == [i] + path[1..][..|q| - 1];
        AppendAtKeepsOthers(node.replies, path[1..], child, q[1..]);
      }
    }
  }

  /** After an append, the only positions that newly resolve lie at or below the new child. */
  lemma {:induction false} AppendAtOnlyNew(posts: seq<Post>, path: seq<int>, child: Post, q: seq<int>)
    requires Resolve(posts, path).Some?
    requires Resolve(posts, q).None? && Resolve(AppendAt(posts, path, child), q).Some?
    ensures IsPrefix(path + [|Resolve(posts, path).value.replies|], q)
    decreases |path|
  {
    var r := AppendAt(posts, path, child);
    var i := path[0];
    var node := posts[i];
    var k := |Resolve(posts, path).value.replies|;
    assert r[q[0]] == posts[q[0]] || q[0] == i;
    if |path| == 1 {
      assert |q| >= 2;
      if q[1] < |node.replies| {
        ResolveExtendList(node.replies, [child], q[1..]);
      }
      assert q[..2] == path + [k];
    } else {
      assert |q| >= 2;
      AppendAtOnlyNew(node.replies, path[1..], child, q[1..]);
      assert (path + [k])[1..] == path[1..] + [k];
      assert q[..|path| + 1] == [i] + q[1..][..|path|];
    }
  }

  /**
   `b` is `a` grown by appends only: the same fields, at least as many
   replies, and each existing reply grown in the same way.
   */
  predicate PostGrows(a: Post, b: Post)
    decreases a
  {
    && a.id == b.id && a.name == b.name && a.message == b.message && a.time == b.time
    && |a.replies| <= |b.replies|
    && forall j :: 0 <= j < |a.replies| ==> PostGrows(a.replies[j], b.replies[j])
  }

  /** `ys` is `xs` grown by appends only. */
  predicate Grows(xs: seq<Post>, ys: seq<Post>) {
    |xs| <= |ys| && forall i :: 0 <= i < |xs| ==> PostGrows(xs[i], ys[i])
  }

  lemma {:induction false} PostGrowsRefl(a: Post)
    ensures PostGrows(a, a)
    decreases a
  {
    forall j | 0 <= j < |a.replies|
      ensures PostGrows(a.replies[j], a.replies[j])
    {
      PostGrowsRefl(a.replies[j]);
    }
  }

  lemma GrowsRefl(xs: seq<Post>)
    ensures Grows(xs, xs)
  {
    forall i | 0 <= i < |xs|
      ensures PostGrows(xs[i], xs[i])
    {
      PostGrowsRefl(xs[i]);
    }
  }

  lemma {:induction false} PostGrowsTrans(a: Post, b: Post, c: Post)
    requires PostGrows(a, b) && PostGrows(b, c)
    ensures PostGrows(a, c)
    decreases a
  {
    forall j | 0 <= j < |a.replies|
      ensures PostGrows(a.replies[j], c.replies[j])
    {
      PostGrowsTrans(a.replies[j], b.replies[j], c.replies[j]);
    }
  }

  lemma GrowsTrans(xs: seq<Post>, ys: seq<Post>, zs: seq<Post>)
    requires Grows(xs, ys) && Grows(ys, zs)
    ensures Grows(xs, zs)
  {
    forall i | 0 <= i < |xs|
      ensures PostGrows(xs[i], zs[i])
    {
      PostGrowsTrans(xs[i], ys[i], zs[i]);
    }
  }

  /** An append only grows the list: nothing existing is changed, moved or removed. */
  lemma {:induction false} AppendAtGrows(posts: seq<Post>, path: seq<int>, child: Post)
    requires Resolve(posts, path).Some?
    ensures Grows(posts, AppendAt(posts, path, child))
    decreases |path|
  {
    var r := AppendAt(posts, path, child);
    var i := path[0];
    var node := posts[i];
    GrowsRefl(posts);
    PostGrowsRefl(node);
    if |path| > 1 {
      AppendAtGrows(node.replies, path[1..], child);
    }
    assert PostGrows(node, r[i]);
    forall j | 0 <= j < |posts|
      ensures PostGrows(posts[j], r[j])
    {
      if j != i {
        assert r[j] == posts[j];
      }
    }
  }

  /** Growth keeps every existing position resolving to the same post, grown only by replies. */
  lemma {:induction false} GrowsKeepsResolved(xs: seq<Post>, ys: seq<Post>, q: seq<int>)
    requires Grows(xs, ys) && Resolve(xs, q).Some?
    ensures Resolve(ys, q).Some? && PostGrows(Resolve(xs, q).value, Resolve(ys, q).value)
    decreases |q|
  {
    if |q| > 1 {
      var a, b := xs[q[0]], ys[q[0]];
      assert Grows(a.replies, b.replies);
      GrowsKeepsResolved(a.replies, b.replies, q[1..]);
    }
  }

  /** The post is `Id`-numbered as the node at `path`, and so is each reply below it. */
  predicate NumberedAs(p: Post, path: seq<int>)
    decreases p
  {
    && p.id == PathCodec.Format(path)
    && forall j :: 0 <= j < |p.replies| ==> NumberedAs(p.replies[j], path + [j])
  }

  /** Each post of the list is numbered as its position below `prefix`. */
  predicate SiblingsNumbered(posts: seq<Post>, prefix: seq<int>) {
    forall i :: 0 <= i < |posts| ==> NumberedAs(posts[i], prefix + [i])
  }

  /** The forest invariant: every post's `Id` is the text of its own position. */
  predicate WellNumbered(forest: seq<Post>) {
    SiblingsNumbered(forest, [])
  }

  /**
   The same invariant stated node by node, as the seeded tree in main.go
   describes it: a reply's `Id` is its parent's `Id`, a comma, and its index.
   */
  predicate LocallyNumbered(p: Post)
    decreases p
  {
    forall j :: 0 <= j < |p.replies| ==>
      && p.replies[j].id == p.id + [PathCodec.Sep] + Decimal.Itoa(j)
      && LocallyNumbered(p.replies[j])
  }

  /** Node-by-node form of the forest invariant: a root's `Id` is its index. */
  predicate RootsNumbered(forest: seq<Post>) {
    forall i :: 0 <= i < |forest| ==> forest[i].id == Decimal.Itoa(i) && LocallyNumbered(forest[i])
  }

  lemma FormatSingle(i: int)
    ensures PathCodec.Format([i]) == Decimal.Itoa(i)
  {
  }

  /** For a post whose own `Id` matches its position, both forms of the invariant agree. */
  lemma {:induction false} NumberedAsIffLocal(p: Post, path: seq<int>)
    requires |path| >= 1 && p.id == PathCodec.Format(path)
    ensures NumberedAs(p, path) <==> LocallyNumbered(p)
    decreases p
  {
    forall j | 0 <= j < |p.replies|
      ensures PathCodec.Format(path + [j]) == p.id + [PathCodec.Sep] + Decimal.Itoa(j)
      ensures p.replies[j].id == PathCodec.Format(path + [j]) ==>
        (NumberedAs(p.replies[j], path + [j]) <==> LocallyNumbered(p.replies[j]))
    {
      PathCodec.FormatSnoc(path, j);
      if p.replies[j].id == PathCodec.Format(path + [j]) {
        NumberedAsIffLocal(p.replies[j], path + [j]);
      }
    }
  }

  /** The positional invariant and its node-by-node form are the same property of a forest. */
  lemma WellNumberedIffRootsNumbered(forest: seq<Post>)
    ensures WellNumbered(forest) <==> RootsNumbered(forest)
  {
    forall i | 0 <= i < |forest|
      ensures [] + [i] == [i]
      ensures PathCodec.Format([i]) == Decimal.Itoa(i)
      ensures forest[i].id == Decimal.Itoa(i) ==> (NumberedAs(forest[i], [i]) <==> LocallyNumbered(forest[i]))
    {
      FormatSingle(i);
      if forest[i].id == Decimal.Itoa(i) {
        NumberedAsIffLocal(forest[i], [i]);
      }
    }
  }

  /** In a numbered list, the node a position resolves to is numbered as that position. */
  lemma {:induction false} ResolvedNumbered(posts: seq<Post>, prefix: seq<int>, q: seq<int>)
    requires SiblingsNumbered(posts, prefix) && Resolve(posts, q).Some?
    ensures NumberedAs(Resolve(posts, q).value, prefix + q)
    decreases |q|
  {
    var i := q[0];
    var node := posts[i];
    if |q| == 1 {
      assert q == [i];
    } else {
      var here := prefix + [i];
      RepliesNumbered(node, here);
      ResolvedNumbered(node.replies, here, q[1..]);
      PathSplit(prefix, q);
    }
  }

  /** The replies of a numbered post are numbered below its position. */
  lemma RepliesNumbered(p: Post, path: seq<int>)
    requires NumberedAs(p, path)
    ensures SiblingsNumbered(p.replies, path)
  {
  }

  lemma PathSplit(prefix: seq<int>, q: seq<int>)
    requires |q| >= 1
    ensures prefix + [q[0]] + q[1..] == prefix + q
  {
  }

  /**
   In a well-numbered forest a post's `Id` is the text of its position, and
   reading that text back leads to the post itself.
   */
  lemma IdAddressesPost(forest: seq<Post>, q: seq<int>)
    requires WellNumbered(forest) && Resolve(forest, q).Some?
    ensures Resolve(forest, q).value.id == PathCodec.Format(q)
    ensures PathCodec.Parse(Resolve(forest, q).value.id) == Some(q)
  {
    ResolvedNumbered(forest, [], q);
    assert [] + q == q;
    PathCodec.ParseFormat(q);
  }

  /** A numbered post keeps its numbering when its replies are replaced by replies numbered below it. */
  lemma NumberedWithReplies(p: Post, path: seq<int>, replies: seq<Post>)
    requires p.id == PathCodec.Format(path) && SiblingsNumbered(replies, path)
    ensures NumberedAs(p.(replies := replies), path)
  {
  }

  /** Replacing one post of a numbered list by one numbered at the same position keeps the list numbered. */
  lemma SiblingsUpdate(posts: seq<Post>, prefix: seq<int>, i: int, x: Post)
    requires SiblingsNumbered(posts, prefix) && 0 <= i < |posts| && NumberedAs(x, prefix + [i])
    ensures SiblingsNumbered(posts[i := x], prefix)
  {
    var r := posts[i := x];
    forall j | 0 <= j < |r|
      ensures NumberedAs(r[j], prefix + [j])
    {
      if j != i {
        assert r[j] == posts[j];
      }
    }
  }

  /** Appending a post numbered as the next position keeps a list numbered. */
  lemma SiblingsSnoc(posts: seq<Post>, prefix: seq<int>, x: Post)
    requires SiblingsNumbered(posts, prefix) && NumberedAs(x, prefix + [|posts|])
    ensures SiblingsNumbered(posts + [x], prefix)
  {
    var r := posts + [x];
    forall j | 0 <= j < |r|
      ensures NumberedAs(r[j], prefix + [j])
    {
      if j < |posts| {
        assert r[j] == posts[j];
      }
    }
  }

  lemma PathRegroup(prefix: seq<int>, path: seq<int>, k: int)
    requires |path| >= 1
    ensures prefix + path + [k] == (prefix + [path[0]]) + path[1..] + [k]
  {
  }

  /** Appending a child numbered as its new position keeps the list numbered. */
  lemma {:induction false} AppendAtPreservesNumbering(posts: seq<Post>, prefix: seq<int>, path: seq<int>, child: Post)
    requires SiblingsNumbered(posts, prefix) && Resolve(posts, path).Some?
    requires NumberedAs(child, prefix + path + [|Resolve(posts, path).value.replies|])
    ensures SiblingsNumbered(AppendAt(posts, path, child), prefix)
    decreases |path|
  {
    var i := path[0];
    var node := posts[i];
    var here := prefix + [i];
    var k := |Resolve(posts, path).value.replies|;
    assert NumberedAs(node, here);
    RepliesNumbered(node, here);
    PathRegroup(prefix, path, k);
    var replies;
    if |path| == 1 {
      assert k == |node.replies| && here + path[1..] + [k] == here + [k];
      replies := node.replies + [child];
      SiblingsSnoc(node.replies, here, child);
    } else {
      replies := AppendAt(node.replies, path[1..], child);
      AppendAtPreservesNumbering(node.replies, here, path[1..], child);
    }
    NumberedWithReplies(node, here, replies);
    SiblingsUpdate(posts, prefix, i, node.(replies := replies));
  }

  /** Appending a reply with no replies of its own, `Id`-ed by its new position, keeps a forest numbered. */
  lemma AppendChildPreservesNumbering(forest: seq<Post>, ids: seq<int>, child: Post)
    requires WellNumbered(forest) && Resolve(forest, ids).Some?
    requires child.replies == [] && child.id == PathCodec.Format(ids + [|Resolve(forest, ids).value.replies|])
    ensures WellNumbered(AppendAt(forest, ids, child))
  {
    var path := ids + [|Resolve(forest, ids).value.replies|];
    assert [] + ids + [|Resolve(forest, ids).value.replies|] == path;
    assert NumberedAs(child, path);
    AppendAtPreservesNumbering(forest, [], ids, child);
  }

  /**
   Appending a reply with no replies of its own changes no existing node off
   the path to the parent, and the reply's position is the only new one.
   */
  lemma AppendChildFrame(forest: seq<Post>, ids: seq<int>, child: Post, q: seq<int>)
    requires Resolve(forest, ids).Some? && child.replies == []
    ensures Resolve(forest, q).Some? && !IsPrefix(q, ids) ==>
      Resolve(AppendAt(forest, ids, child), q) == Resolve(forest, q)
    ensures Resolve(forest, q).None? && Resolve(AppendAt(forest, ids, child), q).Some? ==>
      q == ids + [|Resolve(forest, ids).value.replies|]
  {
    var grown := AppendAt(forest, ids, child);
    var k := |Resolve(forest, ids).value.replies|;
    var path := ids + [k];
    if Resolve(forest, q).Some? && !IsPrefix(q, ids) {
      AppendAtKeepsOthers(forest, ids, child, q);
    }
    if Resolve(forest, q).None? && Resolve(grown, q).Some? {
      AppendAtOnlyNew(forest, ids, child, q);
      if |q| > |path| {
        assert q == path + q[|path|..];
        ResolveAppend(grown, ids, [k]);
        ResolveAppend(grown, path, q[|path|..]);
      }
    }
  }
}
