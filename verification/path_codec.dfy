/**
 The textual form of a post's position: decimal indices joined by commas,
 as the handler in main.go reads it from the `ReplyId` form field and writes
 it into a new post's `Id`.
 */
module PathCodec {
  import opened Options
  import Decimal

  /** The separator between indices. */
  const Sep: char := ','

  /** Joins segments with `Sep` between consecutive ones (`strings.Join`). */
  function Join(segs: seq<string>): string
  {
    if |segs| == 0 then ""
    else if |segs| == 1 then segs[0]
    else segs[0] + [Sep] + Join(segs[1..])
  }

  predicate NoSep(segs: seq<string>) {
    forall i :: 0 <= i < |segs| ==> Sep !in segs[i]
  }

  /**
   `strings.Split` with the one-character separator `Sep`: the text cut at
   every separator, so there is always at least one segment and the empty
   text gives one empty segment.
   */
  function Split(s: string): (segs: seq<string>)
    ensures |segs| >= 1
    ensures NoSep(segs)
    ensures Join(segs) == s
    decreases |s|
  {
    if |s| == 0 then [""]
    else
      var rest := Split(s[1..]);
      if s[0] == Sep then
        var segs := [""] + rest;
        assert segs[1..] == rest;
        assert Join(segs) == [Sep] + s[1..];
        segs
      else
        var segs := [[s[0]] + rest[0]] + rest[1..];
        if |rest| == 1 then
          segs
        else
          assert segs[1..] == rest[1..];
          assert Join(rest) == rest[0] + [Sep] + Join(rest[1..]);
          assert Join(segs) == [s[0]] + (rest[0] + [Sep] + Join(rest[1..]));
          segs
  }

  /** A text without separator is a single segment. */
  lemma SplitNoSep(w: string)
    requires Sep !in w
    ensures Split(w) == [w]
  {
  }

  /** A separator-free leading segment is split off as it is. */
  lemma {:induction false} SplitLeading(w: string, t: string)
    requires Sep !in w
    ensures Split(w + [Sep] + t) == [w] + Split(t)
    decreases |w|
  {
    var s := w + [Sep] + t;
    if |w| == 0 {
      assert s[1..] == t;
    } else {
      assert s[1..] == w[1..] + [Sep] + t;
      SplitLeading(w[1..], t);
      assert [w[0]] + w[1..] == w;
    }
  }

  /** Split undoes Join on separator-free segments. */
  lemma {:induction false} SplitJoin(segs: seq<string>)
    requires |segs| >= 1 && NoSep(segs)
    ensures Split(Join(segs)) == segs
    decreases |segs|
  {
    if |segs| == 1 {
      SplitNoSep(segs[0]);
    } else {
      SplitJoin(segs[1..]);
      SplitLeading(segs[0], Join(segs[1..]));
      assert [segs[0]] + segs[1..] == segs;
    }
  }

  /** Joining two non-empty segment lists puts one separator between their joins. */
  lemma {:induction false} JoinConcat(x: seq<string>, y: seq<string>)
    requires |x| >= 1 && |y| >= 1
    ensures Join(x + y) == Join(x) + [Sep] + Join(y)
    decreases |x|
  {
    if |x| == 1 {
      assert (x + y)[1..] == y;
    } else {
      assert (x + y)[1..] == x[1..] + y;
      JoinConcat(x[1..], y);
    }
  }

  /** Splitting at one separator splits the two sides independently. */
  lemma SplitConcat(a: string, b: string)
    ensures Split(a + [Sep] + b) == Split(a) + Split(b)
  {
    JoinConcat(Split(a), Split(b));
    SplitJoin(Split(a) + Split(b));
  }

  /**
   The conversion loop of the handler on already split segments: every
   segment must be an integer text, and the indices are their values in order.
   */
  function ParseSegments(segs: seq<string>): (r: Option<seq<int>>)
    ensures r.Some? <==> forall i :: 0 <= i < |segs| ==> Decimal.Atoi(segs[i]).Some?
    ensures r.Some? ==> |r.value| == |segs|
    ensures r.Some? ==> forall i :: 0 <= i < |segs| ==> Decimal.Atoi(segs[i]) == Some(r.value[i])
    decreases |segs|
  {
    if |segs| == 0 then Some([])
    else
      match Decimal.Atoi(segs[0])
      case None => None
      case Some(n) =>
        match ParseSegments(segs[1..])
        case None => None
        case Some(rest) => Some([n] + rest)
  }

  /** Reads a position text: split on `Sep`, then convert every segment. */
  function Parse(text: string): (r: Option<seq<int>>)
    ensures r.Some? ==> |r.value| >= 1
  {
    ParseSegments(Split(text))
  }

  /** The decimal rendering of each index. */
  function Renderings(path: seq<int>): (r: seq<string>)
    ensures |r| == |path|
    ensures forall i :: 0 <= i < |path| ==> r[i] == Decimal.Itoa(path[i])
  {
    if |path| == 0 then [] else [Decimal.Itoa(path[0])] + Renderings(path[1..])
  }

  /** Writes a position as text: the decimal indices joined by `Sep`. */
  function Format(path: seq<int>): string
  {
    Join(Renderings(path))
  }

  /** The indices a segment list converts to are determined segment by segment. */
  lemma ParseSegmentsExact(segs: seq<string>, v: seq<int>)
    requires |v| == |segs|
    requires forall i :: 0 <= i < |segs| ==> Decimal.Atoi(segs[i]) == Some(v[i])
    ensures ParseSegments(segs) == Some(v)
  {
    var r := ParseSegments(segs);
    assert r.Some?;
    forall i | 0 <= i < |v|
      ensures r.value[i] == v[i]
    {
      assert Decimal.Atoi(segs[i]) == Some(r.value[i]);
    }
    assert r.value == v;
  }

  /** Round trip: every non-empty position reads back from its text. */
  lemma ParseFormat(path: seq<int>)
    requires |path| >= 1
    ensures Parse(Format(path)) == Some(path)
  {
    var segs := Renderings(path);
    SplitJoin(segs);
    forall i | 0 <= i < |path|
      ensures Decimal.Atoi(segs[i]) == Some(path[i])
    {
      Decimal.AtoiItoa(path[i]);
    }
    ParseSegmentsExact(segs, path);
  }

  /** Converting two segment lists one after the other converts each independently. */
  lemma ParseSegmentsConcat(x: seq<string>, y: seq<string>)
    ensures ParseSegments(x).Some? && ParseSegments(y).Some? ==>
      ParseSegments(x + y) == Some(ParseSegments(x).value + ParseSegments(y).value)
    ensures ParseSegments(x).None? || ParseSegments(y).None? ==> ParseSegments(x + y).None?
  {
    var both := x + y;
    if ParseSegments(x).Some? && ParseSegments(y).Some? {
      var px, py := ParseSegments(x).value, ParseSegments(y).value;
      var v := px + py;
      forall i | 0 <= i < |both|
        ensures Decimal.Atoi(both[i]) == Some(v[i])
      {
        if i < |x| {
          assert both[i] == x[i] && v[i] == px[i];
        } else {
          assert both[i] == y[i - |x|] && v[i] == py[i - |x|];
        }
      }
      ParseSegmentsExact(both, v);
    } else if ParseSegments(x).None? {
      var i :| 0 <= i < |x| && Decimal.Atoi(x[i]).None?;
      assert both[i] == x[i];
    } else {
      var i :| 0 <= i < |y| && Decimal.Atoi(y[i]).None?;
      assert both[|x| + i] == y[i];
    }
  }

  /** A text is rejected exactly when one of its two sides is. */
  lemma ParseConcat(a: string, b: string)
    ensures Parse(a).Some? && Parse(b).Some? ==>
      Parse(a + [Sep] + b) == Some(Parse(a).value + Parse(b).value)
    ensures Parse(a).None? || Parse(b).None? ==> Parse(a + [Sep] + b).None?
  {
    SplitConcat(a, b);
    ParseSegmentsConcat(Split(a), Split(b));
  }

  /** An empty segment — a doubled, leading or trailing comma, or an empty text — is rejected. */
  lemma ParseRejectsEmptySegment(a: string, b: string)
    ensures Parse("") == None
    ensures Parse(a + [Sep, Sep] + b) == None
    ensures Parse(a + [Sep]) == None
    ensures Parse([Sep] + b) == None
  {
    assert Split("") == [""];
    ParseConcat("", b);
    assert "" + [Sep] + b == [Sep] + b;
    ParseConcat(a, "");
    assert a + [Sep] + "" == a + [Sep];
    ParseConcat(a, [Sep] + b);
    assert a + [Sep] + ([Sep] + b) == a + [Sep, Sep] + b;
  }

  /** Writing a position one index longer appends a separator and that index. */
  lemma FormatSnoc(path: seq<int>, k: int)
    requires |path| >= 1
    ensures Format(path + [k]) == Format(path) + [Sep] + Decimal.Itoa(k)
  {
    assert Renderings(path + [k]) == Renderings(path) + [Decimal.Itoa(k)];
    JoinConcat(Renderings(path), [Decimal.Itoa(k)]);
  }

  /** The text of one more index of a position: the text so far, a comma, and that index. */
  lemma FormatPrefixStep(path: seq<int>, i: int)
    requires 1 <= i < |path|
    ensures Format(path[..i + 1]) == Format(path[..i]) + "," + Decimal.Itoa(path[i])
  {
    FormatSnoc(path[..i], path[i]);
    assert path[..i + 1] == path[..i] + [path[i]];
  }

  /**
   Step 1 of the reply branch (main.go:60-71): split the text and convert
   the segments one by one, stopping at the first that is not an integer.
   */
  method ConvertIds(replyId: string) returns (ids: seq<int>, ok: bool)
    ensures ok <==> Parse(replyId).Some?
    ensures ok ==> ids == Parse(replyId).value
  {
    var segs := Split(replyId);
    ids := [];
    ok := true;
    var i := 0;
    while i < |segs|
      invariant 0 <= i <= |segs|
      invariant ok ==> ParseSegments(segs[..i]) == Some(ids)
      invariant !ok ==> ParseSegments(segs).None?
      decreases |segs| - i
    {
      var n := Decimal.Atoi(segs[i]);
      if n.None? {
        ok := false;
        break;
      }
      assert forall j :: 0 <= j < i ==> segs[..i + 1][j] == segs[..i][j];
      ParseSegmentsExact(segs[..i + 1], ids + [n.value]);
      ids := ids + [n.value];
      i := i + 1;
    }
    if ok {
      assert segs[..|segs|] == segs;
    }
  }

  /**
   Step 3 of the reply branch (main.go:83-92): render the first index, then
   append a separator and each later index, the child's index last.
   */
  method RenderChildId(ids: seq<int>, childIndex: int) returns (id: string)
    requires |ids| >= 1
    ensures id == Format(ids + [childIndex])
  {
    var all := ids + [childIndex];
    id := Decimal.Itoa(all[0]);
    assert Renderings(all[..1]) == [Decimal.Itoa(all[0])];
    var i := 1;
    while i < |all|
      invariant 1 <= i <= |all|
      invariant id == Format(all[..i])
    {
      FormatPrefixStep(all, i);
      id := id + "," + Decimal.Itoa(all[i]);
      i := i + 1;
    }
    assert all[..|all|] == all;
  }
}
