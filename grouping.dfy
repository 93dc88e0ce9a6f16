/** Result assembly: `zip_tokens_and_tags` pairs tokens with the tagger's
    labels, and `group_by_tag` merges runs of equally tagged neighbours into
    one entry whose text is their space-separated concatenation. */
module Grouping {

  /** One `(token, tag)` pair of a parse result. */
  datatype Tagged = Tagged(token: string, tag: string)

  /** `zip_tokens_and_tags`: positional pairs, as many as the shorter input
      allows. */
  function ZipTokensAndTags(tokens: seq<string>, tags: seq<string>): (r: seq<Tagged>)
    ensures |r| == if |tokens| <= |tags| then |tokens| else |tags|
    ensures forall i :: 0 <= i < |r| ==> r[i] == Tagged(tokens[i], tags[i])
  {
    if tokens == [] || tags == [] then []
    else [Tagged(tokens[0], tags[0])] + ZipTokensAndTags(tokens[1..], tags[1..])
  }

  function TokensOf(ts: seq<Tagged>): seq<string>
  {
    seq(|ts|, i requires 0 <= i < |ts| => ts[i].token)
  }

  function TagsOf(ts: seq<Tagged>): seq<string>
  {
    seq(|ts|, i requires 0 <= i < |ts| => ts[i].tag)
  }

  /** Zipping then unzipping gives back the inputs, cut to the shorter one. */
  lemma ZipUnzip(tokens: seq<string>, tags: seq<string>)
    ensures var m := if |tokens| <= |tags| then |tokens| else |tags|;
      TokensOf(ZipTokensAndTags(tokens, tags)) == tokens[..m] &&
      TagsOf(ZipTokensAndTags(tokens, tags)) == tags[..m]
  {
  }

  /** Texts joined with single spaces, left to right. */
  function JoinSpace(texts: seq<string>): string
  {
    if texts == [] then []
    else if |texts| == 1 then texts[0]
    else JoinSpace(texts[..|texts| - 1]) + " " + texts[|texts| - 1]
  }

  /** The grouped result, built by adding one pair at a time at the end: a
      pair whose tag is the tag of the last group joins that group. */
  function Grouped(ts: seq<Tagged>): seq<Tagged>
  {
    if ts == [] then []
    else
      var g := Grouped(ts[..|ts| - 1]);
      var t := ts[|ts| - 1];
      if g != [] && g[|g| - 1].tag == t.tag
      then g[..|g| - 1] + [Tagged(g[|g| - 1].token + " " + t.token, t.tag)]
      else g + [t]
  }

  /** Adding one pair at the end: it joins the last group when it shares
      that group's tag, else it starts a new group. */
  lemma GroupedSnoc(ts: seq<Tagged>, t: Tagged)
    ensures var g := Grouped(ts);
      Grouped(ts + [t]) ==
        if g != [] && g[|g| - 1].tag == t.tag
        then g[..|g| - 1] + [Tagged(g[|g| - 1].token + " " + t.token, t.tag)]
        else g + [t]
  {
    assert (ts + [t])[..|ts|] == ts;
  }

  lemma GroupedSnocJoins(ts: seq<Tagged>, t: Tagged, done: seq<Tagged>, token: string)
    requires Grouped(ts) == done + [Tagged(token, t.tag)]
    ensures Grouped(ts + [t]) == done + [Tagged(token + " " + t.token, t.tag)]
  {
    GroupedSnoc(ts, t);
    assert (done + [Tagged(token, t.tag)])[..|done|] == done;
  }

  lemma GroupedSnocStarts(ts: seq<Tagged>, t: Tagged)
    requires Grouped(ts) != [] ==> Grouped(ts)[|Grouped(ts)| - 1].tag != t.tag
    ensures Grouped(ts + [t]) == Grouped(ts) + [t]
  {
    GroupedSnoc(ts, t);
  }

  /** Taking pair `n - 1` after a finished group starts a new group. */
  lemma GroupStartsAt(tokens: seq<Tagged>, n: nat, result: seq<Tagged>)
    requires 0 < n <= |tokens|
    requires result == Grouped(tokens[..n - 1])
    requires result != [] ==> result[|result| - 1].tag != tokens[n - 1].tag
    ensures Grouped(tokens[..n]) == result + [Tagged(tokens[n - 1].token, tokens[n - 1].tag)]
  {
    assert tokens[..n] == tokens[..n - 1] + [tokens[n - 1]];
    GroupedSnocStarts(tokens[..n - 1], tokens[n - 1]);
  }

  /** Pair `n - 1`, carrying the open group's tag, is joined to it. */
  lemma GroupJoinsAt(tokens: seq<Tagged>, n: nat, result: seq<Tagged>, token: string, tag: string)
    requires 0 < n <= |tokens| && tokens[n - 1].tag == tag
    requires Grouped(tokens[..n - 1]) == result + [Tagged(token, tag)]
    ensures Grouped(tokens[..n]) == result + [Tagged(token + " " + tokens[n - 1].token, tag)]
  {
    assert tokens[..n] == tokens[..n - 1] + [tokens[n - 1]];
    GroupedSnocJoins(tokens[..n - 1], tokens[n - 1], result, token);
  }

  /** `group_by_tag`: a peekable iterator; each pair taken starts a group
      that absorbs the following pairs while they carry the same tag. */
  method GroupByTag(tokens: seq<Tagged>) returns (result: seq<Tagged>)
    ensures result == Grouped(tokens)
  {
    result := [];
    var i := 0;
    while i < |tokens|
      invariant 0 <= i <= |tokens|
      invariant result == Grouped(tokens[..i])
      invariant i < |tokens| && result != [] ==> result[|result| - 1].tag != tokens[i].tag
    {
      var token := tokens[i].token;
      var tag := tokens[i].tag;
      i := i + 1;
      GroupStartsAt(tokens, i, result);
      while i < |tokens| && tokens[i].tag == tag
        invariant 0 < i <= |tokens|
        invariant Grouped(tokens[..i]) == result + [Tagged(token, tag)]
      {
        var nextToken := tokens[i].token;
        i := i + 1;
        GroupJoinsAt(tokens, i, result, token, tag);
        token := token + " " + nextToken;
      }
      result := result + [Tagged(token, tag)];
    }
    assert tokens[..i] == tokens;
  }

  /** Maximal runs of equally tagged neighbours, left to right. */
  function Runs(ts: seq<Tagged>): (rs: seq<seq<Tagged>>)
    ensures forall k :: 0 <= k < |rs| ==> rs[k] != []
  {
    if ts == [] then []
    else
      var rs := Runs(ts[..|ts| - 1]);
      var t := ts[|ts| - 1];
      if rs != [] && rs[|rs| - 1][0].tag == t.tag
      then rs[..|rs| - 1] + [rs[|rs| - 1] + [t]]
      else rs + [[t]]
  }

  function Flatten(rs: seq<seq<Tagged>>): seq<Tagged>
  {
    if rs == [] then [] else Flatten(rs[..|rs| - 1]) + rs[|rs| - 1]
  }

  /** Adding one pair at the end: it extends the last run when it shares
      that run's tag, else it starts a new run. */
  lemma RunsSnoc(ts: seq<Tagged>, t: Tagged)
    ensures var rs := Runs(ts);
      Runs(ts + [t]) ==
        if rs != [] && rs[|rs| - 1][0].tag == t.tag
        then rs[..|rs| - 1] + [rs[|rs| - 1] + [t]]
        else rs + [[t]]
  {
    assert (ts + [t])[..|ts|] == ts;
  }

  /** Joining one more text onto a non-empty run's texts. */
  lemma JoinSpaceSnoc(run: seq<Tagged>, t: Tagged)
    requires run != []
    ensures JoinSpace(Texts(run + [t])) == JoinSpace(Texts(run)) + " " + t.token
  {
    var texts := Texts(run + [t]);
    assert texts[..|texts| - 1] == Texts(run);
  }

  /** `rs` cuts `ts` into non-empty pieces that carry one tag each and
      differ in tag from their neighbours. */
  predicate IsPartition(ts: seq<Tagged>, rs: seq<seq<Tagged>>)
  {
    && (forall k :: 0 <= k < |rs| ==> rs[k] != [])
    && Flatten(rs) == ts
    && (forall k, j :: 0 <= k < |rs| && 0 <= j < |rs[k]| ==> rs[k][j].tag == rs[k][0].tag)
    && (forall k :: 0 <= k < |rs| - 1 ==> rs[k][0].tag != rs[k + 1][0].tag)
  }

  lemma FlattenSnoc(rs: seq<seq<Tagged>>, run: seq<Tagged>)
    ensures Flatten(rs + [run]) == Flatten(rs) + run
  {
    assert (rs + [run])[..|rs|] == rs;
  }

  /** A pair with the last piece's tag extends the last piece. */
  lemma PartitionExtend(ts: seq<Tagged>, rs: seq<seq<Tagged>>, t: Tagged)
    requires IsPartition(ts, rs)
    requires rs != [] && rs[|rs| - 1][0].tag == t.tag
    ensures IsPartition(ts + [t], rs[..|rs| - 1] + [rs[|rs| - 1] + [t]])
  {
    var last := |rs| - 1;
    var front := rs[..last];
    assert rs == front + [rs[last]];
    FlattenSnoc(front, rs[last]);
    FlattenSnoc(front, rs[last] + [t]);
    var r: seq<seq<Tagged>> := front + [rs[last] + [t]];
    forall k, j | 0 <= k < |r| && 0 <= j < |r[k]|
      ensures r[k] != [] && r[k][j].tag == r[k][0].tag
    {
      if k < last {
        assert r[k] == rs[k];
      } else {
        assert r[k] == rs[last] + [t];
      }
    }
    forall k | 0 <= k < |r| - 1 ensures r[k][0].tag != r[k + 1][0].tag {
      assert r[k] == rs[k];
      assert r[k + 1][0] == rs[k + 1][0];
    }
  }

  /** Any other pair becomes a piece of its own. */
  lemma PartitionStart(ts: seq<Tagged>, rs: seq<seq<Tagged>>, t: Tagged)
    requires IsPartition(ts, rs)
    requires !(rs != [] && rs[|rs| - 1][0].tag == t.tag)
    ensures IsPartition(ts + [t], rs + [[t]])
  {
    FlattenSnoc(rs, [t]);
    var r: seq<seq<Tagged>> := rs + [[t]];
    assert forall k :: 0 <= k < |rs| ==> r[k] == rs[k];
    assert r[|rs|] == [t];
  }

  /** The runs cut the input into pieces that are non-empty, carry one tag
      each, differ in tag from their neighbours, and put back together give
      the input. */
  lemma {:induction false} RunsPartition(ts: seq<Tagged>)
    ensures Flatten(Runs(ts)) == ts
    ensures forall k, j :: 0 <= k < |Runs(ts)| && 0 <= j < |Runs(ts)[k]| ==>
      Runs(ts)[k][j].tag == Runs(ts)[k][0].tag
    ensures forall k :: 0 <= k < |Runs(ts)| - 1 ==> Runs(ts)[k][0].tag != Runs(ts)[k + 1][0].tag
  {
    RunsArePartition(ts);
  }

  lemma {:induction false} RunsArePartition(ts: seq<Tagged>)
    ensures IsPartition(ts, Runs(ts))
  {
    if ts != [] {
      var init := ts[..|ts| - 1];
      var t := ts[|ts| - 1];
      var rs: seq<seq<Tagged>> := Runs(init);
      RunsArePartition(init);
      assert init + [t] == ts;
      RunsSnoc(init, t);
      if rs != [] && rs[|rs| - 1][0].tag == t.tag {
        PartitionExtend(init, rs, t);
      } else {
        PartitionStart(init, rs, t);
      }
    }
  }

  function Texts(run: seq<Tagged>): seq<string>
  {
    seq(|run|, i requires 0 <= i < |run| => run[i].token)
  }

  /** Each group is one run: its text is the run's texts joined by spaces,
      in order, and its tag is the run's tag. */
  predicate GroupsMatchRuns(g: seq<Tagged>, rs: seq<seq<Tagged>>)
  {
    && |g| == |rs|
    && (forall k :: 0 <= k < |rs| ==> rs[k] != [])
    && (forall k :: 0 <= k < |rs| ==> g[k] == Tagged(JoinSpace(Texts(rs[k])), rs[k][0].tag))
  }

  /** Extending the last run extends the last group's text by one word. */
  lemma MatchExtend(g: seq<Tagged>, rs: seq<seq<Tagged>>, t: Tagged)
    requires GroupsMatchRuns(g, rs)
    requires rs != [] && rs[|rs| - 1][0].tag == t.tag
    ensures GroupsMatchRuns(g[..|g| - 1] + [Tagged(g[|g| - 1].token + " " + t.token, t.tag)],
                            rs[..|rs| - 1] + [rs[|rs| - 1] + [t]])
  {
    var last := |rs| - 1;
    var run := rs[last];
    JoinSpaceSnoc(run, t);
    var gs := g[..last] + [Tagged(g[last].token + " " + t.token, t.tag)];
    var r: seq<seq<Tagged>> := rs[..last] + [run + [t]];
    assert gs[last] == Tagged(JoinSpace(Texts(r[last])), r[last][0].tag);
    forall k | 0 <= k < last ensures gs[k] == Tagged(JoinSpace(Texts(r[k])), r[k][0].tag) {
      assert gs[k] == g[k] && r[k] == rs[k];
    }
  }

  /** A new run is a new group holding its one word. */
  lemma MatchStart(g: seq<Tagged>, rs: seq<seq<Tagged>>, t: Tagged)
    requires GroupsMatchRuns(g, rs)
    ensures GroupsMatchRuns(g + [t], rs + [[t]])
  {
    assert Texts([t]) == [t.token];
  }

  lemma {:induction false} GroupedIsJoinedRuns(ts: seq<Tagged>)
    ensures |Grouped(ts)| == |Runs(ts)|
    ensures forall k :: 0 <= k < |Runs(ts)| ==>
      Grouped(ts)[k] == Tagged(JoinSpace(Texts(Runs(ts)[k])), Runs(ts)[k][0].tag)
  {
    GroupedMatchesRuns(ts);
  }

  lemma {:induction false} GroupedMatchesRuns(ts: seq<Tagged>)
    ensures GroupsMatchRuns(Grouped(ts), Runs(ts))
  {
    if ts != [] {
      var init := ts[..|ts| - 1];
      var t := ts[|ts| - 1];
      GroupedMatchesRuns(init);
      assert ts == init + [t];
      var g := Grouped(init);
      var rs: seq<seq<Tagged>> := Runs(init);
      GroupedSnoc(init, t);
      RunsSnoc(init, t);
      if rs != [] && rs[|rs| - 1][0].tag == t.tag {
        assert g[|g| - 1].tag == t.tag;
        MatchExtend(g, rs, t);
      } else {
        assert g != [] ==> g[|g| - 1].tag != t.tag;
        MatchStart(g, rs, t);
      }
    }
  }

  /** No two neighbouring groups share a tag. */
  lemma {:induction false} GroupedAdjacentDistinct(ts: seq<Tagged>)
    ensures forall k :: 0 <= k < |Grouped(ts)| - 1 ==> Grouped(ts)[k].tag != Grouped(ts)[k + 1].tag
  {
    GroupedIsJoinedRuns(ts);
    RunsPartition(ts);
  }

  /** Adjacent repeats of a tag sequence collapsed to one. */
  function Collapse<T(==)>(tags: seq<T>): seq<T>
  {
    if tags == [] then []
    else
      var c := Collapse(tags[..|tags| - 1]);
      if c != [] && c[|c| - 1] == tags[|tags| - 1] then c else c + [tags[|tags| - 1]]
  }

  /** The tags of the groups are the input tags with adjacent repeats
      collapsed. */
  lemma {:induction false} GroupedTags(ts: seq<Tagged>)
    ensures TagsOf(Grouped(ts)) == Collapse(TagsOf(ts))
  {
    if ts != [] {
      var init := ts[..|ts| - 1];
      var t := ts[|ts| - 1];
      GroupedTags(init);
      assert ts == init + [t];
      GroupedTagsSnoc(init, t);
    }
  }

  lemma GroupedTagsSnoc(init: seq<Tagged>, t: Tagged)
    requires TagsOf(Grouped(init)) == Collapse(TagsOf(init))
    ensures TagsOf(Grouped(init + [t])) == Collapse(TagsOf(init + [t]))
  {
    var g := Grouped(init);
    var c := TagsOf(g);
    TagsOfSnoc(init, t);
    CollapseSnoc(TagsOf(init), t.tag);
    GroupedSnoc(init, t);
    if g != [] && g[|g| - 1].tag == t.tag {
      TagsOfJoinLast(g, g[|g| - 1].token + " " + t.token);
    } else {
      TagsOfSnoc(g, t);
    }
  }

  lemma TagsOfSnoc(ts: seq<Tagged>, t: Tagged)
    ensures TagsOf(ts + [t]) == TagsOf(ts) + [t.tag]
  {
  }

  /** Replacing the text of the last entry keeps the tags. */
  lemma TagsOfJoinLast(g: seq<Tagged>, token: string)
    requires g != []
    ensures TagsOf(g[..|g| - 1] + [Tagged(token, g[|g| - 1].tag)]) == TagsOf(g)
  {
  }

  lemma CollapseSnoc<T>(tags: seq<T>, tag: T)
    ensures var c := Collapse(tags);
      Collapse(tags + [tag]) == if c != [] && c[|c| - 1] == tag then c else c + [tag]
  {
    var longer := tags + [tag];
    assert longer[..|longer| - 1] == tags;
    assert longer[|longer| - 1] == tag;
  }

  /** A sequence without equally tagged neighbours is its own grouping. */
  lemma {:induction false} GroupedWithoutRepeats(ts: seq<Tagged>)
    requires forall k :: 0 <= k < |ts| - 1 ==> ts[k].tag != ts[k + 1].tag
    ensures Grouped(ts) == ts
  {
    if ts != [] {
      var init := ts[..|ts| - 1];
      GroupedWithoutRepeats(init);
      assert init + [ts[|ts| - 1]] == ts;
    }
  }

  /** Grouping twice is grouping once. */
  lemma GroupedIdempotent(ts: seq<Tagged>)
    ensures Grouped(Grouped(ts)) == Grouped(ts)
  {
    GroupedAdjacentDistinct(ts);
    GroupedWithoutRepeats(Grouped(ts));
  }

  /** "Main" and "Street", both tagged StreetName, become "Main Street". */
  lemma GroupingExample()
    ensures Grouped([Tagged("123", "AddressNumber"), Tagged("Main", "StreetName"), Tagged("Street", "StreetName")])
      == [Tagged("123", "AddressNumber"), Tagged("Main Street", "StreetName")]
  {
    var a, b, c := Tagged("123", "AddressNumber"), Tagged("Main", "StreetName"), Tagged("Street", "StreetName");
    assert "AddressNumber" != "StreetName" by { assert |"AddressNumber"| != |"StreetName"|; }
    GroupedSnocStarts([], a);
    assert [] + [a] == [a];
    GroupedSnocStarts([a], b);
    assert [a] + [b] == [a, b];
    GroupedSnocJoins([a, b], c, [a], "Main");
    assert [a, b] + [c] == [a, b, c];
    assert "Main" + " " + "Street" == "Main Street";
  }
}
