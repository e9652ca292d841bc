/** The recognition history of one scan: a decoded string is recorded, and
    the user asked whether to open it, only when it is non-empty and differs
    from the most recent entry. Each opening of the scan menu creates a fresh
    one-entry list `['link']` that serves exactly one image upload or one
    camera session, so the history is never empty. */
module ScanHistory {

  const Seed: seq<string> := ["link"]

  /** No entry repeats the one just before it. */
  predicate NoAdjacentRepeats(h: seq<string>)
  {
    forall i :: 0 < i < |h| ==> h[i] != h[i - 1]
  }

  function Last(h: seq<string>): string
    requires |h| > 0
  {
    h[|h| - 1]
  }

  /** The guard `qr_data and qr_data != data[-1]`. */
  predicate Accepts(h: seq<string>, v: string)
    requires |h| > 0
  {
    v != "" && v != Last(h)
  }

  /** An accepted string is non-empty and can be appended without creating a
      repeated neighbour. */
  lemma AcceptedAppendKeepsInvariant(h: seq<string>, v: string)
    requires |h| > 0 && Accepts(h, v)
    ensures |v| > 0
    ensures NoAdjacentRepeats(h) ==> NoAdjacentRepeats(h + [v])
  {
  }

  /** The history and the prompts raised while processing decoded strings. */
  datatype Step = Step(history: seq<string>, prompts: seq<string>)

  /** One decoded string offered to the history. */
  function Offer(h: seq<string>, v: string): (r: Step)
    requires |h| > 0
    ensures r.history == h + r.prompts
    ensures |r.prompts| == 1 <==> v != "" && v != h[|h| - 1]
    ensures |r.prompts| <= 1 && forall k :: 0 <= k < |r.prompts| ==> r.prompts[k] == v
  {
    if Accepts(h, v) then Step(h + [v], [v]) else Step(h, [])
  }

  /** The `for qr_data in results` loop over the strings decoded from one
      image or one camera frame, in order; later strings are compared with
      whatever the earlier ones left last in the history. */
  function ProcessResults(h: seq<string>, results: seq<string>): (r: Step)
    requires |h| > 0
    ensures r.history == h + r.prompts
    ensures forall k :: 0 <= k < |r.prompts| ==> r.prompts[k] != ""
    decreases |results|
  {
    if |results| == 0 then Step(h, [])
    else
      var first := Offer(h, results[0]);
      var rest := ProcessResults(first.history, results[1..]);
      Step(rest.history, first.prompts + rest.prompts)
  }

  /** The camera loop: each frame's decoded strings are processed in turn. */
  function ProcessFrames(h: seq<string>, frames: seq<seq<string>>): (r: Step)
    requires |h| > 0
    ensures r.history == h + r.prompts
    decreases |frames|
  {
    if |frames| == 0 then Step(h, [])
    else
      var first := ProcessResults(h, frames[0]);
      var rest := ProcessFrames(first.history, frames[1..]);
      Step(rest.history, first.prompts + rest.prompts)
  }

  /** Processing decoded strings keeps the history free of repeated
      neighbours and of empty entries, and only ever appends to it. */
  lemma {:induction false} HistoryInvariant(h: seq<string>, results: seq<string>)
    requires |h| > 0
    requires NoAdjacentRepeats(h) && forall k :: 0 <= k < |h| ==> h[k] != ""
    ensures var r := ProcessResults(h, results).history;
      && |r| >= |h| && r[..|h|] == h
      && NoAdjacentRepeats(r) && forall k :: 0 <= k < |r| ==> r[k] != ""
    decreases |results|
  {
    if |results| > 0 {
      var first := Offer(h, results[0]);
      HistoryInvariant(first.history, results[1..]);
      var r := ProcessResults(h, results).history;
      assert r[..|first.history|] == first.history;
      assert r[..|h|] == first.history[..|h|];
    }
  }

  /** Every prompt is one of the decoded strings. (Their order follows from
      `HistoryIsCollapse`.) */
  lemma {:induction false} PromptsAreDecoded(h: seq<string>, results: seq<string>)
    requires |h| > 0
    ensures forall k :: 0 <= k < |ProcessResults(h, results).prompts| ==>
      ProcessResults(h, results).prompts[k] in results
    decreases |results|
  {
    if |results| > 0 {
      var first := Offer(h, results[0]);
      PromptsAreDecoded(first.history, results[1..]);
      var rest := ProcessResults(first.history, results[1..]);
      assert forall k :: 0 <= k < |rest.prompts| ==> rest.prompts[k] in results[1..];
      assert forall x :: x in results[1..] ==> x in results;
    }
  }

  function Flatten(frames: seq<seq<string>>): seq<string>
  {
    if |frames| == 0 then [] else frames[0] + Flatten(frames[1..])
  }

  /** Drops the empty strings. */
  function NonEmpty(s: seq<string>): seq<string>
  {
    if |s| == 0 then [] else (if s[0] == "" then [] else [s[0]]) + NonEmpty(s[1..])
  }

  /** Collapses every run of equal neighbours to one element. */
  function Collapse(s: seq<string>): seq<string>
  {
    if |s| <= 1 then s
    else if s[0] == s[1] then Collapse(s[1..])
    else [s[0]] + Collapse(s[1..])
  }

  lemma {:induction false} ProcessResultsAppend(h: seq<string>, a: seq<string>, b: seq<string>)
    requires |h| > 0
    ensures var ra := ProcessResults(h, a);
      var rb := ProcessResults(ra.history, b);
      ProcessResults(h, a + b) == Step(rb.history, ra.prompts + rb.prompts)
    decreases |a|
  {
    if |a| == 0 {
      assert a + b == b;
    } else {
      assert (a + b)[0] == a[0];
      assert (a + b)[1..] == a[1..] + b;
      var first := Offer(h, a[0]);
      ProcessResultsAppend(first.history, a[1..], b);
    }
  }

  /** Frame boundaries do not matter: a camera session records and prompts
      exactly what processing all its decoded strings in one list would. */
  lemma {:induction false} FramesAreFlattened(h: seq<string>, frames: seq<seq<string>>)
    requires |h| > 0
    ensures ProcessFrames(h, frames) == ProcessResults(h, Flatten(frames))
    decreases |frames|
  {
    if |frames| > 0 {
      var first := ProcessResults(h, frames[0]);
      FramesAreFlattened(first.history, frames[1..]);
      ProcessResultsAppend(h, frames[0], Flatten(frames[1..]));
    }
  }

  /** A repeated last element does not change the collapse. */
  lemma {:induction false} CollapseRepeatLast(s: seq<string>, t: seq<string>)
    requires |s| > 0
    ensures Collapse(s + [s[|s| - 1]] + t) == Collapse(s + t)
    decreases |s|
  {
    var l := s[|s| - 1];
    if |s| == 1 {
      assert s + [l] + t == [l, l] + t;
      assert (s + [l] + t)[1..] == s + t;
    } else {
      var u := s + [l] + t;
      var v := s + t;
      assert u[0] == s[0] && u[1] == s[1];
      assert v[0] == s[0] && v[1] == s[1];
      assert u[1..] == s[1..] + [l] + t;
      assert v[1..] == s[1..] + t;
      assert l == s[1..][|s[1..]| - 1];
      CollapseRepeatLast(s[1..], t);
    }
  }

  lemma {:induction false} CollapseNoRepeats(s: seq<string>)
    requires NoAdjacentRepeats(s)
    ensures Collapse(s) == s
    decreases |s|
  {
    if |s| > 1 {
      assert NoAdjacentRepeats(s[1..]) by {
        forall i | 0 < i < |s[1..]|
          ensures s[1..][i] != s[1..][i - 1]
        {
          assert s[1..][i] == s[i + 1] && s[1..][i - 1] == s[i];
        }
      }
      CollapseNoRepeats(s[1..]);
      assert s == [s[0]] + s[1..];
    }
  }

  /** Independent description of the history: starting from a history with no
      repeated neighbours, processing decoded strings leaves exactly the old
      history followed by the non-empty strings, with runs of equal neighbours
      collapsed. */
  lemma {:induction false} HistoryIsCollapse(h: seq<string>, results: seq<string>)
    requires |h| > 0 && NoAdjacentRepeats(h)
    ensures ProcessResults(h, results).history == Collapse(h + NonEmpty(results))
    decreases |results|
  {
    if |results| == 0 {
      assert h + NonEmpty(results) == h;
      CollapseNoRepeats(h);
    } else {
      var v := results[0];
      var first := Offer(h, v);
      var t := NonEmpty(results[1..]);
      assert ProcessResults(h, results).history == ProcessResults(first.history, results[1..]).history;
      if Accepts(h, v) {
        assert first.history == h + [v];
        HistoryIsCollapse(h + [v], results[1..]);
        assert NonEmpty(results) == [v] + t;
        assert h + NonEmpty(results) == h + [v] + t;
      } else {
        assert first.history == h;
        HistoryIsCollapse(h, results[1..]);
        if v == "" {
          assert NonEmpty(results) == t;
        } else {
          assert NonEmpty(results) == [v] + t;
          assert h + NonEmpty(results) == h + [v] + t;
          CollapseRepeatLast(h, t);
        }
      }
    }
  }

  /** The camera session's whole history is the seed followed by every
      non-empty decoded string seen, with runs of equal neighbours collapsed. */
  lemma SessionHistory(frames: seq<seq<string>>)
    ensures ProcessFrames(Seed, frames).history == Collapse(Seed + NonEmpty(Flatten(frames)))
  {
    FramesAreFlattened(Seed, frames);
    HistoryIsCollapse(Seed, Flatten(frames));
  }

  /** Scanning the value just recorded again changes nothing and prompts nobody. */
  lemma RepeatIsSuppressed(h: seq<string>)
    requires |h| > 0
    ensures ProcessResults(h, [h[|h| - 1]]) == Step(h, [])
  {
  }

  /** Processing a single decoded string is one offer. */
  lemma ProcessOne(h: seq<string>, v: string)
    requires |h| > 0
    ensures ProcessResults(h, [v]) == Offer(h, v)
  {
  }

  /** Two consecutive frames with the same single value prompt once; a
      different value then prompts again. */
  lemma ConsecutiveFrames(h: seq<string>, a: string, b: string)
    requires |h| > 0 && a != "" && a != h[|h| - 1] && b != "" && b != a
    ensures ProcessFrames(h, [[a], [a], [b]]).prompts == [a, b]
  {
    var h1 := h + [a];
    ProcessOne(h, a);
    ProcessOne(h1, a);
    ProcessOne(h1, b);
    var f3: seq<seq<string>> := [[b]];
    var f2: seq<seq<string>> := [[a], [b]];
    var f1: seq<seq<string>> := [[a], [a], [b]];
    assert f3[1..] == [];
    assert ProcessFrames(h1, f3).prompts == [b];
    assert f2[1..] == f3;
    assert ProcessFrames(h1, f2).prompts == [b];
    assert f1[1..] == f2;
  }

  /** The policy only looks at the last entry: a code that alternates with
      another one prompts on every reappearance. */
  lemma AlternationPrompts(a: string, b: string)
    requires a != "" && b != "" && a != b && a != "link"
    ensures ProcessResults(Seed, [a, b, a]).prompts == [a, b, a]
  {
    var h1 := Seed + [a];
    var h2 := h1 + [b];
    assert h2[|h2| - 1] == b;
    ProcessOne(h2, a);
    assert ProcessResults(h1, [b, a]).prompts == [b, a] by {
      assert [b, a][1..] == [a];
    }
    assert [a, b, a][1..] == [b, a];
  }

  /** Because of the seed, a first scan of the string "link" is never recorded
      nor prompted. */
  lemma SeedSuppressesLink()
    ensures ProcessResults(Seed, ["link"]).prompts == []
  {
  }
}
