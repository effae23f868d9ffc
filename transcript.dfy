/** The transcript the speech recogniser returns, and the cut points read from it. */
module Transcript {
  import opened WordMatch

  /** One entry of the recogniser's `segments` list. */
  datatype Segment = Segment(text: string, start: real, end: real)

  /** The end time of every segment whose text contains the whole word "cut"
      (any case), in transcript order. */
  function CutPoints(segments: seq<Segment>): (cuts: seq<real>)
    ensures |cuts| <= |segments|
    decreases |segments|
  {
    if segments == [] then []
    else
      var last := segments[|segments| - 1];
      CutPoints(segments[..|segments| - 1]) + (if Search(last.text) then [last.end] else [])
  }

  /** A single segment contributes its end time exactly when it mentions the word. */
  lemma CutPointsSingle(s: Segment)
    ensures CutPoints([s]) == if MentionsCut(s.text) then [s.end] else []
  {
    assert [s][..0] == [];
  }

  /** Extraction distributes over concatenation of transcripts: together with
      CutPointsSingle this fixes the result, element by element, in order. */
  lemma {:induction false} CutPointsAppend(a: seq<Segment>, b: seq<Segment>)
    ensures CutPoints(a + b) == CutPoints(a) + CutPoints(b)
    decreases |b|
  {
    if b == [] {
      assert a + b == a;
    } else {
      var n := |b| - 1;
      assert (a + b)[..|a + b| - 1] == a + b[..n];
      assert (a + b)[|a + b| - 1] == b[n];
      CutPointsAppend(a, b[..n]);
    }
  }

  /** A time is a cut point exactly when some mentioning segment ends there. */
  lemma {:induction false} CutPointsMembers(segments: seq<Segment>, x: real)
    ensures x in CutPoints(segments) <==>
      exists i :: 0 <= i < |segments| && MentionsCut(segments[i].text) && segments[i].end == x
    decreases |segments|
  {
    if segments != [] {
      var n := |segments| - 1;
      var init := segments[..n];
      var last := if Search(segments[n].text) then [segments[n].end] else [];
      assert CutPoints(segments) == CutPoints(init) + last;
      assert forall i :: 0 <= i < n ==> segments[i] == init[i];
      CutPointsMembers(init, x);
      if x in CutPoints(init) {
        var i :| 0 <= i < |init| && MentionsCut(init[i].text) && init[i].end == x;
        assert segments[i] == init[i];
      }
    }
  }

  /** The worked example: "scuttle" does not count, "CUT." does. */
  lemma CutPointsExample()
    ensures CutPoints([Segment("please cut now", 0.0, 3.5), Segment("scuttle", 3.5, 6.0),
                       Segment("CUT.", 6.0, 9.0)]) == [3.5, 9.0]
  {
    var a, b, c := Segment("please cut now", 0.0, 3.5), Segment("scuttle", 3.5, 6.0), Segment("CUT.", 6.0, 9.0);
    MentionExamples();
    ScuttleDoesNotMention();
    assert Search(a.text) && !Search(b.text) && Search(c.text);
    assert [a, b, c][..2] == [a, b];
    assert [a, b][..1] == [a];
    assert [a][..0] == [];
    assert CutPoints([a]) == [3.5];
    assert CutPoints([a, b]) == [3.5];
  }
}
