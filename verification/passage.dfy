/** The passage request: the positional command-line words, joined with
    single spaces; no words at all means the verse of the day. */
module Passage {
  import opened Outcomes

  /** Line 124, `words.join(" ")`: the words plus one space between each
      pair. */
  function Join(ws: seq<string>): (r: string)
    ensures |ws| > 0 ==> |r| == WordsLength(ws) + |ws| - 1
    ensures |ws| > 0 ==> |ws[0]| <= |r| && r[..|ws[0]|] == ws[0]
    decreases |ws|
  {
    if |ws| == 0 then "" else if |ws| == 1 then ws[0] else ws[0] + " " + Join(ws[1..])
  }

  /** Lines 123-127: the requested passage, absent when no word was given.
      A single empty word still counts as a request (for the empty
      passage). Splitting the passage at its spaces gives back words that
      hold no space themselves. */
  function Requested(ws: seq<string>): (r: Option<string>)
    ensures r.None? <==> |ws| == 0
    ensures r.Some? ==> |r.value| == WordsLength(ws) + |ws| - 1
    ensures r.Some? && (forall i :: 0 <= i < |ws| ==> NoSpace(ws[i])) ==> Split(r.value) == ws
  {
    if |ws| == 0 then None
    else
      if forall i :: 0 <= i < |ws| ==> NoSpace(ws[i]) then
        SplitJoin(ws);
        Some(Join(ws))
      else Some(Join(ws))
  }

  function WordsLength(ws: seq<string>): nat
    decreases |ws|
  {
    if |ws| == 0 then 0 else |ws[0]| + WordsLength(ws[1..])
  }

  predicate NoSpace(w: string) { forall i :: 0 <= i < |w| ==> w[i] != ' ' }

  /** Splitting at every space: the inverse of `Join` for words that hold no
      space themselves. */
  function Split(s: string): (r: seq<string>)
    ensures |r| > 0
    decreases |s|
  {
    if |s| == 0 then [""]
    else
      var tail := Split(s[1..]);
      if s[0] == ' ' then [""] + tail else [[s[0]] + tail[0]] + tail[1..]
  }

  lemma {:induction false} SplitWord(w: string, rest: string)
    requires NoSpace(w)
    ensures Split(w + rest) == [w + Split(rest)[0]] + Split(rest)[1..]
    decreases |w|
  {
    var r := Split(rest);
    if |w| > 0 {
      assert (w + rest)[0] == w[0] && (w + rest)[1..] == w[1..] + rest;
      SplitWord(w[1..], rest);
      var tail := Split(w[1..] + rest);
      assert tail[0] == w[1..] + r[0] && tail[1..] == r[1..];
      assert [w[0]] + (w[1..] + r[0]) == w + r[0];
    } else {
      assert w + rest == rest;
      assert w + r[0] == r[0];
      assert [r[0]] + r[1..] == r;
    }
  }

  /** Joining words that contain no space and splitting the result at every
      space gives the words back: the passage loses no word boundary. */
  lemma {:induction false} SplitJoin(ws: seq<string>)
    requires |ws| > 0
    requires forall i :: 0 <= i < |ws| ==> NoSpace(ws[i])
    ensures Split(Join(ws)) == ws
    decreases |ws|
  {
    if |ws| == 1 {
      SplitWord(ws[0], "");
      assert ws[0] + "" == ws[0];
    } else {
      SplitJoin(ws[1..]);
      var rest := " " + Join(ws[1..]);
      SplitWord(ws[0], rest);
      assert rest[1..] == Join(ws[1..]);
      assert ws[0] + rest == Join(ws);
      assert Split(rest) == [""] + ws[1..];
      assert ws[0] + "" == ws[0];
      assert ws == [ws[0]] + ws[1..];
    }
  }

  /** `John 3:16` typed as two words asks for the passage `John 3:16`. */
  lemma JoinExample()
    ensures Requested(["John", "3:16"]) == Some("John 3:16")
  {
    assert ["John", "3:16"][1..] == ["3:16"];
    assert Join(["John", "3:16"]) == "John" + " " + "3:16";
    assert "John" + " " + "3:16" == "John 3:16";
  }
}
