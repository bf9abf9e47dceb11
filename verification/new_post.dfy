/**
 The `/newpost` handler of main.go:32-109 with the form fields passed in as
 plain strings and the forest passed in and returned as a value. The
 redirect it always answers with is left out.
 */
module NewPost {
  import opened Options
  import Decimal
  import PathCodec
  import opened ReplyTree

  /** The form fields the handler reads: `Name`, `Post`, `Reply` and `ReplyId`. */
  datatype Form = Form(name: string, post: string, reply: string, replyId: string)

  /** What a request did to the forest. */
  datatype Outcome =
    | RootCreated(index: nat)
    | ReplyCreated(path: seq<int>)
      /** Neither the new-post nor the reply fields were all present. */
    | Ignored
      /** `ReplyId` has a segment that is not an integer. */
    | MalformedReplyId
      /** An index of `ReplyId` is negative or out of range: the source faults before any change. */
    | NoSuchPost

  datatype Response = Response(forest: seq<Post>, outcome: Outcome)

  /** The new-post branch is taken when both `Name` and `Post` are filled in. */
  predicate WantsRoot(form: Form) {
    form.name != "" && form.post != ""
  }

  /** The reply branch needs `Reply`, `Name` and `ReplyId` all filled in. */
  predicate WantsReply(form: Form) {
    form.reply != "" && form.name != "" && form.replyId != ""
  }

  /** One request to `/newpost`, received at time `now`. */
  function Handle(forest: seq<Post>, form: Form, now: Timestamp): (r: Response)
    ensures r.outcome.RootCreated? <==> WantsRoot(form)
    ensures r.outcome.Ignored? <==> !WantsRoot(form) && !WantsReply(form)
    ensures r.outcome.MalformedReplyId? <==>
      !WantsRoot(form) && WantsReply(form) && PathCodec.Parse(form.replyId).None?
    ensures r.outcome.NoSuchPost? <==>
      && !WantsRoot(form) && WantsReply(form) && PathCodec.Parse(form.replyId).Some?
      && Resolve(forest, PathCodec.Parse(form.replyId).value).None?
    ensures !r.outcome.RootCreated? && !r.outcome.ReplyCreated? ==> r.forest == forest
    ensures r.outcome.RootCreated? ==>
      && r.outcome.index == |forest|
      && |r.forest| == |forest| + 1
      && r.forest[..|forest|] == forest
      && r.forest[|forest|].id == Decimal.Itoa(|forest|)
      && PathCodec.Parse(r.forest[|forest|].id) == Some([|forest|])
      && r.forest[|forest|].name == form.name
      && r.forest[|forest|].message == form.post
      && r.forest[|forest|].time == now
      && r.forest[|forest|].replies == []
    ensures r.outcome.ReplyCreated? ==>
      var path := r.outcome.path;
      && |path| >= 2
      && PathCodec.Parse(form.replyId) == Some(path[..|path| - 1])
      && Resolve(forest, path[..|path| - 1]).Some?
      && path[|path| - 1] == |Resolve(forest, path[..|path| - 1]).value.replies|
      && var parent := Resolve(forest, path[..|path| - 1]).value;
      && var child := Post(PathCodec.Format(path), form.name, form.reply, now, []);
      && Resolve(r.forest, path[..|path| - 1]) == Some(parent.(replies := parent.replies + [child]))
      && Resolve(r.forest, path) == Some(child)
      && PathCodec.Parse(PathCodec.Format(path)) == Some(path)
      && |r.forest| == |forest|
  {
    if WantsRoot(form) then
      var root := Post(Decimal.Itoa(|forest|), form.name, form.post, now, []);
      FormatSingle(|forest|);
      PathCodec.ParseFormat([|forest|]);
      var grown := forest + [root];
      assert grown[..|forest|] == forest;
      Response(grown, RootCreated(|forest|))
    else if WantsReply(form) then
      match PathCodec.Parse(form.replyId)
      case None => Response(forest, MalformedReplyId)
      case Some(ids) =>
        match Resolve(forest, ids)
        case None => Response(forest, NoSuchPost)
        case Some(parent) =>
          var path := ids + [|parent.replies|];
          var child := Post(PathCodec.Format(path), form.name, form.reply, now, []);
          var grown := AppendAt(forest, ids, child);
          ResolveAppend(grown, ids, [|parent.replies|]);
          PathCodec.ParseFormat(path);
          assert path[..|path| - 1] == ids;
          Response(grown, ReplyCreated(path))
    else
      Response(forest, Ignored)
  }

  /** The forest a new-post request produces: the new root appended after the others. */
  lemma RootCase(forest: seq<Post>, form: Form, now: Timestamp)
    requires WantsRoot(form)
    ensures Handle(forest, form, now).forest == forest + [Post(Decimal.Itoa(|forest|), form.name, form.post, now, [])]
  {
  }

  /** The forest a successful reply produces, and where the reply lands. */
  lemma ReplyCase(forest: seq<Post>, form: Form, now: Timestamp) returns (ids: seq<int>, child: Post)
    requires Handle(forest, form, now).outcome.ReplyCreated?
    ensures Resolve(forest, ids).Some?
    ensures Handle(forest, form, now).outcome.path == ids + [|Resolve(forest, ids).value.replies|]
    ensures child == Post(PathCodec.Format(ids + [|Resolve(forest, ids).value.replies|]), form.name, form.reply, now, [])
    ensures Handle(forest, form, now).forest == AppendAt(forest, ids, child)
  {
    ids := PathCodec.Parse(form.replyId).value;
    child := Post(PathCodec.Format(ids + [|Resolve(forest, ids).value.replies|]), form.name, form.reply, now, []);
  }

  /** Every request keeps the forest well numbered: each post's `Id` is its position. */
  lemma HandlePreservesNumbering(forest: seq<Post>, form: Form, now: Timestamp)
    requires WellNumbered(forest)
    ensures WellNumbered(Handle(forest, form, now).forest)
  {
    var r := Handle(forest, form, now);
    if r.outcome.RootCreated? {
      RootCase(forest, form, now);
      FormatSingle(|forest|);
      SiblingsSnoc(forest, [], Post(Decimal.Itoa(|forest|), form.name, form.post, now, []));
    } else if r.outcome.ReplyCreated? {
      var ids, child := ReplyCase(forest, form, now);
      AppendChildPreservesNumbering(forest, ids, child);
    }
  }

  /** Every request only grows the forest: no existing post is changed, moved or removed. */
  lemma HandleGrows(forest: seq<Post>, form: Form, now: Timestamp)
    ensures Grows(forest, Handle(forest, form, now).forest)
  {
    var r := Handle(forest, form, now);
    GrowsRefl(forest);
    if r.outcome.RootCreated? {
      RootCase(forest, form, now);
      forall i | 0 <= i < |forest|
        ensures PostGrows(forest[i], r.forest[i])
      {
        assert r.forest[i] == forest[i];
      }
    } else if r.outcome.ReplyCreated? {
      var ids, child := ReplyCase(forest, form, now);
      AppendAtGrows(forest, ids, child);
    }
  }

  /**
   A reply changes nothing off the path to its parent, and the new reply is
   the only post that appears.
   */
  lemma HandleReplyFrame(forest: seq<Post>, form: Form, now: Timestamp, q: seq<int>)
    requires Handle(forest, form, now).outcome.ReplyCreated?
    ensures var r := Handle(forest, form, now);
      var path := r.outcome.path;
      Resolve(forest, q).Some? && !IsPrefix(q, path[..|path| - 1]) ==> Resolve(r.forest, q) == Resolve(forest, q)
    ensures var r := Handle(forest, form, now);
      Resolve(forest, q).None? && Resolve(r.forest, q).Some? ==> q == r.outcome.path
  {
    var ids, child := ReplyCase(forest, form, now);
    var path := ids + [|Resolve(forest, ids).value.replies|];
    assert path[..|path| - 1] == ids;
    AppendChildFrame(forest, ids, child, q);
  }

  /** A request received at a time. */
  datatype Request = Request(form: Form, now: Timestamp)

  /** The forest after serving the requests one after the other. */
  function Serve(forest: seq<Post>, reqs: seq<Request>): seq<Post>
    decreases |reqs|
  {
    if |reqs| == 0 then forest
    else Serve(Handle(forest, reqs[0].form, reqs[0].now).forest, reqs[1..])
  }

  /** Any sequence of requests keeps the forest well numbered. */
  lemma {:induction false} ServePreservesNumbering(forest: seq<Post>, reqs: seq<Request>)
    requires WellNumbered(forest)
    ensures WellNumbered(Serve(forest, reqs))
    decreases |reqs|
  {
    if |reqs| > 0 {
      HandlePreservesNumbering(forest, reqs[0].form, reqs[0].now);
      ServePreservesNumbering(Handle(forest, reqs[0].form, reqs[0].now).forest, reqs[1..]);
    }
  }

  /**
   Append only: after any sequence of requests every existing position
   still holds a post with the same `Id`, author, message and time.
   */
  lemma {:induction false} ServeKeepsPosts(forest: seq<Post>, reqs: seq<Request>, q: seq<int>)
    requires Resolve(forest, q).Some?
    ensures Resolve(Serve(forest, reqs), q).Some?
    ensures PostGrows(Resolve(forest, q).value, Resolve(Serve(forest, reqs), q).value)
    decreases |reqs|
  {
    if |reqs| == 0 {
      PostGrowsRefl(Resolve(forest, q).value);
    } else {
      var next := Handle(forest, reqs[0].form, reqs[0].now).forest;
      HandleGrows(forest, reqs[0].form, reqs[0].now);
      GrowsKeepsResolved(forest, next, q);
      ServeKeepsPosts(next, reqs[1..], q);
      PostGrowsTrans(Resolve(forest, q).value, Resolve(next, q).value, Resolve(Serve(next, reqs[1..]), q).value);
    }
  }
}
