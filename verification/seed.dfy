/**
 The example thread `main` seeds the forest with (main.go:125-163), and the
 requests that would build it from an empty forest.
 */
module Seed {
  import opened Options
  import Decimal
  import PathCodec
  import opened ReplyTree
  import opened NewPost

  /** The seeded thread, with the five `time.Now()` readings passed in. */
  function SeedForest(t0: Timestamp, t1: Timestamp, t2: Timestamp, t3: Timestamp, t4: Timestamp): seq<Post>
  {
    [Post("0", "Jebediah7", "Good afternoon", t0, [
      Post("0,0", "Franklin24", "Good afternoon indeed", t1, [
        Post("0,0,0", "Jebediah7", "Indeed, for it is a good afternoon.", t2, [])]),
      Post("0,1", "Shroomsbury616", "I disagree about how good this afternoon is :/", t3, [
        Post("0,1,0", "Jebediah7", "Then I am sorry to hear that, Shroomsbury616.", t4, [])])])]
  }

  /** The form a reply to the post with `Id` `replyId` submits. */
  function ReplyForm(name: string, reply: string, replyId: string): Form {
    Form(name, "", reply, replyId)
  }

  /** The requests that write the seeded thread, oldest first. */
  function SeedRequests(t0: Timestamp, t1: Timestamp, t2: Timestamp, t3: Timestamp, t4: Timestamp): seq<Request>
  {
    [ Request(Form("Jebediah7", "Good afternoon", "", ""), t0),
      Request(ReplyForm("Franklin24", "Good afternoon indeed", "0"), t1),
      Request(ReplyForm("Jebediah7", "Indeed, for it is a good afternoon.", "0,0"), t2),
      Request(ReplyForm("Shroomsbury616", "I disagree about how good this afternoon is :/", "0"), t3),
      Request(ReplyForm("Jebediah7", "Then I am sorry to hear that, Shroomsbury616.", "0,1"), t4) ]
  }

  /** The texts of the small positions the seeded thread uses. */
  lemma SmallIds()
    ensures Decimal.Itoa(0) == "0" && Decimal.Itoa(1) == "1" && Decimal.Itoa(5) == "5"
    ensures PathCodec.Format([0]) == "0" && PathCodec.Format([5]) == "5"
    ensures PathCodec.Format([0, 0]) == "0,0" && PathCodec.Format([0, 1]) == "0,1"
    ensures PathCodec.Format([0, 0, 0]) == "0,0,0" && PathCodec.Format([0, 1, 0]) == "0,1,0"
  {
  }

  /** The seeded thread satisfies the numbering invariant ("1 because 0 already used"). */
  lemma SeedWellNumbered(t0: Timestamp, t1: Timestamp, t2: Timestamp, t3: Timestamp, t4: Timestamp)
    ensures WellNumbered(SeedForest(t0, t1, t2, t3, t4))
  {
    SmallIds();
    var f := SeedForest(t0, t1, t2, t3, t4);
    var root := f[0];
    assert root.replies[0].replies[0].id == root.replies[0].id + [PathCodec.Sep] + Decimal.Itoa(0);
    assert LocallyNumbered(root.replies[0]);
    assert LocallyNumbered(root.replies[1]);
    assert LocallyNumbered(root);
    assert RootsNumbered(f);
    WellNumberedIffRootsNumbered(f);
  }

  // The posts of the seeded thread, each with the replies it has at some stage.

  function Root(t0: Timestamp, replies: seq<Post>): Post {
    Post("0", "Jebediah7", "Good afternoon", t0, replies)
  }

  function Franklin(t1: Timestamp, replies: seq<Post>): Post {
    Post("0,0", "Franklin24", "Good afternoon indeed", t1, replies)
  }

  function Shroomsbury(t3: Timestamp, replies: seq<Post>): Post {
    Post("0,1", "Shroomsbury616", "I disagree about how good this afternoon is :/", t3, replies)
  }

  function Leaf0(t2: Timestamp): Post {
    Post("0,0,0", "Jebediah7", "Indeed, for it is a good afternoon.", t2, [])
  }

  function Leaf1(t4: Timestamp): Post {
    Post("0,1,0", "Jebediah7", "Then I am sorry to hear that, Shroomsbury616.", t4, [])
  }

  /** A reply whose `ReplyId` reads as `ids` naming an existing post is appended below it. */
  lemma ReplyStep(forest: seq<Post>, form: Form, now: Timestamp, ids: seq<int>)
    requires !WantsRoot(form) && WantsReply(form)
    requires PathCodec.Parse(form.replyId) == Some(ids) && Resolve(forest, ids).Some?
    ensures var k := |Resolve(forest, ids).value.replies|;
      Handle(forest, form, now).forest ==
      AppendAt(forest, ids, Post(PathCodec.Format(ids + [k]), form.name, form.reply, now, []))
  {
  }

  lemma Step1(t0: Timestamp)
    ensures Handle([], Form("Jebediah7", "Good afternoon", "", ""), t0).forest == [Root(t0, [])]
  {
  }

  lemma Step2(t0: Timestamp, t1: Timestamp)
    ensures Handle([Root(t0, [])], ReplyForm("Franklin24", "Good afternoon indeed", "0"), t1).forest
      == [Root(t0, [Franklin(t1, [])])]
  {
    SmallIds();
    PathCodec.ParseFormat([0]);
    var f := [Root(t0, [])];
    ReplyStep(f, ReplyForm("Franklin24", "Good afternoon indeed", "0"), t1, [0]);
    assert [0] + [0] == [0, 0];
    assert [] + [Franklin(t1, [])] == [Franklin(t1, [])];
  }

  lemma Append3(t0: Timestamp, t1: Timestamp, t2: Timestamp)
    ensures Resolve([Root(t0, [Franklin(t1, [])])], [0, 0]) == Some(Franklin(t1, []))
    ensures AppendAt([Root(t0, [Franklin(t1, [])])], [0, 0], Leaf0(t2)) == [Root(t0, [Franklin(t1, [Leaf0(t2)])])]
  {
    var f := [Root(t0, [Franklin(t1, [])])];
    var inner := AppendAt(f[0].replies, [0], Leaf0(t2));
    assert |inner| == 1 && inner[0] == Franklin(t1, [Leaf0(t2)]);
    assert inner == [Franklin(t1, [Leaf0(t2)])];
    var outer := AppendAt(f, [0, 0], Leaf0(t2));
    assert |outer| == 1 && outer[0] == Root(t0, inner);
  }

  lemma Step3(t0: Timestamp, t1: Timestamp, t2: Timestamp)
    ensures Handle([Root(t0, [Franklin(t1, [])])], ReplyForm("Jebediah7", "Indeed, for it is a good afternoon.", "0,0"), t2).forest
      == [Root(t0, [Franklin(t1, [Leaf0(t2)])])]
  {
    SmallIds();
    PathCodec.ParseFormat([0, 0]);
    Append3(t0, t1, t2);
    assert [0, 0] + [0] == [0, 0, 0];
    ReplyStep([Root(t0, [Franklin(t1, [])])], ReplyForm("Jebediah7", "Indeed, for it is a good afternoon.", "0,0"), t2, [0, 0]);
  }

  lemma Append4(t0: Timestamp, t1: Timestamp, t2: Timestamp, t3: Timestamp)
    ensures AppendAt([Root(t0, [Franklin(t1, [Leaf0(t2)])])], [0], Shroomsbury(t3, []))
      == [Root(t0, [Franklin(t1, [Leaf0(t2)]), Shroomsbury(t3, [])])]
  {
    var f := [Root(t0, [Franklin(t1, [Leaf0(t2)])])];
    var outer := AppendAt(f, [0], Shroomsbury(t3, []));
    assert [Franklin(t1, [Leaf0(t2)])] + [Shroomsbury(t3, [])] == [Franklin(t1, [Leaf0(t2)]), Shroomsbury(t3, [])];
    assert |outer| == 1 && outer[0] == Root(t0, [Franklin(t1, [Leaf0(t2)]), Shroomsbury(t3, [])]);
  }

  lemma Step4(t0: Timestamp, t1: Timestamp, t2: Timestamp, t3: Timestamp)
    ensures Handle([Root(t0, [Franklin(t1, [Leaf0(t2)])])],
                   ReplyForm("Shroomsbury616", "I disagree about how good this afternoon is :/", "0"), t3).forest
      == [Root(t0, [Franklin(t1, [Leaf0(t2)]), Shroomsbury(t3, [])])]
  {
    SmallIds();
    PathCodec.ParseFormat([0]);
    Append4(t0, t1, t2, t3);
    assert [0] + [1] == [0, 1];
    ReplyStep([Root(t0, [Franklin(t1, [Leaf0(t2)])])],
              ReplyForm("Shroomsbury616", "I disagree about how good this afternoon is :/", "0"), t3, [0]);
  }

  lemma Append5(t0: Timestamp, t1: Timestamp, t2: Timestamp, t3: Timestamp, t4: Timestamp)
    ensures Resolve([Root(t0, [Franklin(t1, [Leaf0(t2)]), Shroomsbury(t3, [])])], [0, 1]) == Some(Shroomsbury(t3, []))
    ensures AppendAt([Root(t0, [Franklin(t1, [Leaf0(t2)]), Shroomsbury(t3, [])])], [0, 1], Leaf1(t4))
      == SeedForest(t0, t1, t2, t3, t4)
  {
    var f := [Root(t0, [Franklin(t1, [Leaf0(t2)]), Shroomsbury(t3, [])])];
    var inner := AppendAt(f[0].replies, [1], Leaf1(t4));
    assert |inner| == 2 && inner[0] == Franklin(t1, [Leaf0(t2)]) && inner[1] == Shroomsbury(t3, [Leaf1(t4)]);
    assert inner == [Franklin(t1, [Leaf0(t2)]), Shroomsbury(t3, [Leaf1(t4)])];
    var outer := AppendAt(f, [0, 1], Leaf1(t4));
    assert |outer| == 1 && outer[0] == Root(t0, inner);
  }

  lemma Step5(t0: Timestamp, t1: Timestamp, t2: Timestamp, t3: Timestamp, t4: Timestamp)
    ensures Handle([Root(t0, [Franklin(t1, [Leaf0(t2)]), Shroomsbury(t3, [])])],
                   ReplyForm("Jebediah7", "Then I am sorry to hear that, Shroomsbury616.", "0,1"), t4).forest
      == SeedForest(t0, t1, t2, t3, t4)
  {
    SmallIds();
    PathCodec.ParseFormat([0, 1]);
    Append5(t0, t1, t2, t3, t4);
    assert [0, 1] + [0] == [0, 1, 0];
    ReplyStep([Root(t0, [Franklin(t1, [Leaf0(t2)]), Shroomsbury(t3, [])])],
              ReplyForm("Jebediah7", "Then I am sorry to hear that, Shroomsbury616.", "0,1"), t4, [0, 1]);
  }

  /**
   Posting the seeded thread's messages, each reply naming its parent's
   `Id`, builds exactly the seeded thread; the second reply to the root gets
   index 1 because index 0 is taken.
   */
  lemma SeedRequestsBuildSeed(t0: Timestamp, t1: Timestamp, t2: Timestamp, t3: Timestamp, t4: Timestamp)
    ensures Serve([], SeedRequests(t0, t1, t2, t3, t4)) == SeedForest(t0, t1, t2, t3, t4)
  {
    var reqs := SeedRequests(t0, t1, t2, t3, t4);
    var f1 := [Root(t0, [])];
    var f2 := [Root(t0, [Franklin(t1, [])])];
    var f3 := [Root(t0, [Franklin(t1, [Leaf0(t2)])])];
    var f4 := [Root(t0, [Franklin(t1, [Leaf0(t2)]), Shroomsbury(t3, [])])];
    var f5 := SeedForest(t0, t1, t2, t3, t4);
    Step1(t0);
    Step2(t0, t1);
    Step3(t0, t1, t2);
    Step4(t0, t1, t2, t3);
    Step5(t0, t1, t2, t3, t4);
    ServeStep(f4, reqs[4..]);
    ServeStep(f3, reqs[3..]);
    ServeStep(f2, reqs[2..]);
    ServeStep(f1, reqs[1..]);
    ServeStep([], reqs);
  }

  /** Serving a non-empty list handles its first request, then serves the rest. */
  lemma ServeStep(forest: seq<Post>, reqs: seq<Request>)
    requires |reqs| >= 1
    ensures Serve(forest, reqs) == Serve(Handle(forest, reqs[0].form, reqs[0].now).forest, reqs[1..])
  {
  }

  /** A reply to position 5 when only one root exists is refused and changes nothing. */
  lemma ReplyToMissingRoot(root: Post, now: Timestamp)
    ensures var r := Handle([root], ReplyForm("Franklin24", "hello", "5"), now);
      r.outcome == NoSuchPost && r.forest == [root]
  {
    SmallIds();
    PathCodec.ParseFormat([5]);
  }

  /** A trailing comma in `ReplyId` is refused before the forest is looked at. */
  lemma TrailingCommaRefused(forest: seq<Post>, now: Timestamp)
    ensures var r := Handle(forest, ReplyForm("Franklin24", "hello", "0,"), now);
      r.outcome == MalformedReplyId && r.forest == forest
  {
    PathCodec.ParseRejectsEmptySegment("0", "");
    assert "0" + [PathCodec.Sep] == "0,";
  }
}
