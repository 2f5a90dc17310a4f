/** Maximal runs of one speaker: the reference grouping against which the
    paragraph loop of `convert_segs_par` (app/transcribers/whisperx.py) is
    proved. Grouping is by consecutive run, not by speaker identity. */
module Runs {
  import opened Segments

  /** One run of consecutive segments of one speaker, with their texts in
      order. */
  datatype Run = Run(speaker: string, texts: seq<string>)

  /** A string concatenation of texts, in order. */
  function Concat(ts: seq<string>): string
  {
    if ts == [] then "" else Concat(ts[..|ts| - 1]) + ts[|ts| - 1]
  }

  /** The text a run contributes to its paragraph. */
  function Paragraph(r: Run): string
  {
    Concat(r.texts)
  }

  function Speakers(runs: seq<Run>): (ss: seq<string>)
    ensures |ss| == |runs|
  {
    seq(|runs|, i requires 0 <= i < |runs| => runs[i].speaker)
  }

  function ParagraphTexts(runs: seq<Run>): (ps: seq<string>)
    ensures |ps| == |runs|
  {
    seq(|runs|, i requires 0 <= i < |runs| => Paragraph(runs[i]))
  }

  /** One step of the grouping: a cue of the current speaker joins the last
      run; a cue of another speaker opens a new run. */
  function Extend(runs: seq<Run>, c: Cue): (r: seq<Run>)
    ensures |r| > 0
  {
    if runs != [] && runs[|runs| - 1].speaker == c.speaker then
      runs[..|runs| - 1] + [Run(c.speaker, runs[|runs| - 1].texts + [c.text])]
    else
      runs + [Run(c.speaker, [c.text])]
  }

  /** The resolved segments split into runs, left to right. */
  function Group(cs: seq<Cue>): (runs: seq<Run>)
    ensures |runs| <= |cs| && (runs == [] <==> cs == [])
  {
    if cs == [] then [] else Extend(Group(cs[..|cs| - 1]), cs[|cs| - 1])
  }

  /** The speaker and text of each cue. */
  function Labels(cs: seq<Cue>): (ls: seq<(string, string)>)
    ensures |ls| == |cs|
  {
    seq(|cs|, i requires 0 <= i < |cs| => (cs[i].speaker, cs[i].text))
  }

  /** The speaker/text pairs a run stands for. */
  function Expand(r: Run): (ls: seq<(string, string)>)
    ensures |ls| == |r.texts|
  {
    seq(|r.texts|, i requires 0 <= i < |r.texts| => (r.speaker, r.texts[i]))
  }

  function Flatten(runs: seq<Run>): seq<(string, string)>
  {
    if runs == [] then [] else Flatten(runs[..|runs| - 1]) + Expand(runs[|runs| - 1])
  }

  /** Runs are maximal: none is empty and neighbours have different
      speakers. */
  predicate Maximal(runs: seq<Run>)
  {
    && (forall i :: 0 <= i < |runs| ==> |runs[i].texts| > 0)
    && (forall i :: 0 < i < |runs| ==> runs[i - 1].speaker != runs[i].speaker)
  }

  lemma {:induction false} GroupStep(cs: seq<Cue>, c: Cue)
    ensures Group(cs + [c]) == Extend(Group(cs), c)
  {
    assert (cs + [c])[..|cs|] == cs;
  }

  lemma {:induction false} LabelsStep(cs: seq<Cue>, c: Cue)
    ensures Labels(cs + [c]) == Labels(cs) + [(c.speaker, c.text)]
  {
  }

  lemma {:induction false} FlattenStep(runs: seq<Run>, r: Run)
    ensures Flatten(runs + [r]) == Flatten(runs) + Expand(r)
  {
    assert (runs + [r])[..|runs|] == runs;
  }

  lemma {:induction false} ConcatStep(ts: seq<string>, t: string)
    ensures Concat(ts + [t]) == Concat(ts) + t
  {
    assert (ts + [t])[..|ts|] == ts;
  }

  lemma {:induction false} ParagraphTextsStep(runs: seq<Run>, r: Run)
    ensures ParagraphTexts(runs + [r]) == ParagraphTexts(runs) + [Paragraph(r)]
  {
  }

  /** A step keeps the runs maximal. */
  lemma {:induction false} ExtendMaximal(runs: seq<Run>, c: Cue)
    requires Maximal(runs)
    ensures Maximal(Extend(runs, c))
  {
  }

  /** A step adds the cue's pair at the end of what the runs stand for. */
  lemma {:induction false} ExtendFlatten(runs: seq<Run>, c: Cue)
    ensures Flatten(Extend(runs, c)) == Flatten(runs) + [(c.speaker, c.text)]
  {
    if runs != [] && runs[|runs| - 1].speaker == c.speaker {
      var init, last := runs[..|runs| - 1], runs[|runs| - 1];
      assert runs == init + [last];
      FlattenStep(init, last);
      FlattenStep(init, Run(c.speaker, last.texts + [c.text]));
      assert Expand(Run(c.speaker, last.texts + [c.text])) == Expand(last) + [(c.speaker, c.text)];
    } else {
      FlattenStep(runs, Run(c.speaker, [c.text]));
    }
  }

  /** A step adds the cue's text at the end of the paragraphs. */
  lemma {:induction false} ExtendParagraphs(runs: seq<Run>, c: Cue)
    ensures Concat(ParagraphTexts(Extend(runs, c))) == Concat(ParagraphTexts(runs)) + c.text
  {
    var e := Extend(runs, c);
    if runs != [] && runs[|runs| - 1].speaker == c.speaker {
      var init, last := runs[..|runs| - 1], runs[|runs| - 1];
      var joined := Run(c.speaker, last.texts + [c.text]);
      assert runs == init + [last];
      assert e == init + [joined];
      ParagraphTextsStep(init, last);
      ParagraphTextsStep(init, joined);
      ConcatStep(last.texts, c.text);
      ConcatStep(ParagraphTexts(init), Paragraph(last));
      ConcatStep(ParagraphTexts(init), Paragraph(joined));
      calc {
        Concat(ParagraphTexts(e));
        Concat(ParagraphTexts(init)) + Paragraph(joined);
        Concat(ParagraphTexts(init)) + (Paragraph(last) + c.text);
        (Concat(ParagraphTexts(init)) + Paragraph(last)) + c.text;
        Concat(ParagraphTexts(runs)) + c.text;
      }
    } else {
      var started := Run(c.speaker, [c.text]);
      assert e == runs + [started];
      ParagraphTextsStep(runs, started);
      ConcatStep([], c.text);
      assert [] + [c.text] == [c.text];
      assert Paragraph(started) == c.text;
      ConcatStep(ParagraphTexts(runs), Paragraph(started));
    }
  }

  /** `Group` splits the cues into maximal runs which, read back in order,
      give exactly the input. */
  lemma {:induction false} GroupCorrect(cs: seq<Cue>)
    ensures Maximal(Group(cs))
    ensures Flatten(Group(cs)) == Labels(cs)
  {
    if cs != [] {
      var init, c := cs[..|cs| - 1], cs[|cs| - 1];
      assert cs == init + [c];
      GroupCorrect(init);
      GroupStep(init, c);
      LabelsStep(init, c);
      ExtendMaximal(Group(init), c);
      ExtendFlatten(Group(init), c);
    }
  }

  /** Splitting off the last element of both sides of an equation. */
  lemma {:induction false} SplitLast<T>(x: seq<T>, y: seq<T>, z: seq<T>, e: T)
    requires |y| > 0 && x + y == z + [e]
    ensures x + y[..|y| - 1] == z && y[|y| - 1] == e
  {
    assert (x + y)[..|x + y| - 1] == x + y[..|y| - 1];
    assert (x + y)[|x + y| - 1] == y[|y| - 1];
  }

  /** Peeling the last cue off a split whose last run is `last`: the cue
      belongs to `last`, and the rest of `last` with the earlier runs reads
      back as the earlier cues. */
  lemma {:induction false} PeelLast(prefix: seq<Run>, last: Run, init: seq<Cue>, c: Cue)
    requires |last.texts| > 0
    requires Flatten(prefix) + Expand(last) == Labels(init + [c])
    ensures last.speaker == c.speaker
    ensures last.texts == last.texts[..|last.texts| - 1] + [c.text]
    ensures Flatten(prefix) + Expand(Run(last.speaker, last.texts[..|last.texts| - 1])) == Labels(init)
  {
    var k := |last.texts|;
    LabelsStep(init, c);
    SplitLast(Flatten(prefix), Expand(last), Labels(init), (c.speaker, c.text));
    assert Expand(last)[k - 1] == (last.speaker, last.texts[k - 1]);
    assert Expand(last)[..k - 1] == Expand(Run(last.speaker, last.texts[..k - 1]));
  }

  /** Maximal runs are unique: any split into maximal runs that reads back
      as the input is the one `Group` computes. Grouping is by consecutive
      run, never by speaker identity across the whole list. */
  lemma {:induction false} GroupUnique(cs: seq<Cue>, runs: seq<Run>)
    requires Maximal(runs) && Flatten(runs) == Labels(cs)
    ensures runs == Group(cs)
    decreases |cs|, 1
  {
    if runs == [] {
      assert |Labels(cs)| == 0;
    } else {
      var n := |runs|;
      var last, prefix := runs[n - 1], runs[..n - 1];
      assert runs == prefix + [last];
      FlattenStep(prefix, last);
      var k := |last.texts|;
      assert k > 0;
      assert cs != [] by {
        assert |Flatten(runs)| >= |Expand(last)| > 0;
      }
      var init, c := cs[..|cs| - 1], cs[|cs| - 1];
      assert cs == init + [c];
      GroupStep(init, c);
      PeelLast(prefix, last, init, c);
      var shorter := Run(last.speaker, last.texts[..k - 1]);
      if k == 1 {
        assert Expand(shorter) == [];
        assert Flatten(prefix) + [] == Flatten(prefix);
        UniqueNewRun(init, c, prefix, last);
      } else {
        UniqueJoinedRun(init, c, prefix, shorter);
        assert last == Run(shorter.speaker, shorter.texts + [c.text]);
      }
    }
  }

  /** The case of `GroupUnique` where the last cue opens its own run. */
  lemma {:induction false} UniqueNewRun(init: seq<Cue>, c: Cue, prefix: seq<Run>, last: Run)
    requires Maximal(prefix + [last]) && last.speaker == c.speaker && last.texts == [c.text]
    requires Flatten(prefix) == Labels(init)
    ensures prefix + [last] == Extend(Group(init), c)
    decreases |init| + 1, 0
  {
    assert (prefix + [last])[..|prefix|] == prefix;
    assert Maximal(prefix);
    GroupUnique(init, prefix);
    assert prefix != [] ==> prefix[|prefix| - 1].speaker != c.speaker by {
      if prefix != [] {
        var full := prefix + [last];
        assert full[|prefix| - 1] == prefix[|prefix| - 1] && full[|prefix|] == last;
        assert full[|prefix| - 1].speaker != full[|prefix|].speaker;
      }
    }
  }

  /** The case of `GroupUnique` where the last cue joins the run before it. */
  lemma {:induction false} UniqueJoinedRun(init: seq<Cue>, c: Cue, prefix: seq<Run>, shorter: Run)
    requires |shorter.texts| > 0 && shorter.speaker == c.speaker
    requires Maximal(prefix + [Run(c.speaker, shorter.texts + [c.text])])
    requires Flatten(prefix) + Expand(shorter) == Labels(init)
    ensures prefix + [Run(c.speaker, shorter.texts + [c.text])] == Extend(Group(init), c)
    decreases |init| + 1, 0
  {
    var rs := prefix + [shorter];
    var full := prefix + [Run(c.speaker, shorter.texts + [c.text])];
    assert rs[..|prefix|] == prefix && full[..|prefix|] == prefix;
    FlattenStep(prefix, shorter);
    assert Maximal(rs) by {
      forall i | 0 < i < |rs| ensures rs[i - 1].speaker != rs[i].speaker {
        assert full[i - 1].speaker != full[i].speaker;
      }
    }
    GroupUnique(init, rs);
  }

  /** Concatenating all paragraphs gives all the texts in order. */
  lemma {:induction false} GroupKeepsText(cs: seq<Cue>)
    ensures Concat(ParagraphTexts(Group(cs))) == Concat(Texts(cs))
  {
    if cs != [] {
      var init, c := cs[..|cs| - 1], cs[|cs| - 1];
      assert cs == init + [c];
      GroupKeepsText(init);
      GroupStep(init, c);
      ExtendParagraphs(Group(init), c);
      assert Texts(cs) == Texts(init) + [c.text];
      ConcatStep(Texts(init), c.text);
    }
  }

  function Texts(cs: seq<Cue>): (ts: seq<string>)
    ensures |ts| == |cs|
  {
    seq(|cs|, i requires 0 <= i < |cs| => cs[i].text)
  }

  lemma {:induction false} ExtendSize(runs: seq<Run>, c: Cue)
    ensures var e := Extend(runs, c);
      && |runs| <= |e| <= |runs| + 1
      && e[|e| - 1].speaker == c.speaker
      && (|e| == |runs| <==> runs != [] && runs[|runs| - 1].speaker == c.speaker)
      && (runs != [] ==> e[0].speaker == runs[0].speaker)
  {
  }

  /** The first run belongs to the first cue's speaker and the last run to
      the last cue's. */
  lemma {:induction false} GroupEnds(cs: seq<Cue>)
    requires cs != []
    ensures var g := Group(cs);
      g[0].speaker == cs[0].speaker && g[|g| - 1].speaker == cs[|cs| - 1].speaker
  {
    var init, c := cs[..|cs| - 1], cs[|cs| - 1];
    assert cs == init + [c];
    GroupStep(init, c);
    ExtendSize(Group(init), c);
    if init != [] {
      GroupEnds(init);
      assert init[0] == cs[0];
    }
  }

  /** There is a single run exactly when every cue has the first cue's
      speaker. */
  lemma {:induction false} SingleRunIff(cs: seq<Cue>)
    requires cs != []
    ensures |Group(cs)| == 1 <==> forall i :: 0 <= i < |cs| ==> cs[i].speaker == cs[0].speaker
  {
    if |Group(cs)| == 1 {
      SingleRunSameSpeaker(cs);
    }
    if forall i :: 0 <= i < |cs| ==> cs[i].speaker == cs[0].speaker {
      SameSpeakerSingleRun(cs);
    }
  }

  lemma {:induction false} SingleRunSameSpeaker(cs: seq<Cue>)
    requires |Group(cs)| == 1
    ensures forall i :: 0 <= i < |cs| ==> cs[i].speaker == cs[0].speaker
  {
    var init, c := cs[..|cs| - 1], cs[|cs| - 1];
    ExtendSize(Group(init), c);
    if init != [] {
      var g := Group(init);
      assert Group(cs) == Extend(g, c) && |g| == 1;
      SingleRunSameSpeaker(init);
      GroupEnds(init);
      assert c.speaker == g[0].speaker == init[0].speaker == cs[0].speaker;
      forall i | 0 <= i < |cs| ensures cs[i].speaker == cs[0].speaker {
        if i < |init| {
          assert cs[i] == init[i];
        }
      }
    }
  }

  lemma {:induction false} SameSpeakerSingleRun(cs: seq<Cue>)
    requires cs != []
    requires forall i :: 0 <= i < |cs| ==> cs[i].speaker == cs[0].speaker
    ensures |Group(cs)| == 1
  {
    var init, c := cs[..|cs| - 1], cs[|cs| - 1];
    ExtendSize(Group(init), c);
    if init != [] {
      assert forall i :: 0 <= i < |init| ==> init[i] == cs[i];
      SameSpeakerSingleRun(init);
      GroupEnds(init);
      assert Group(init)[0].speaker == c.speaker;
    }
  }

  /** With a single run, its paragraph is every text concatenated. */
  lemma {:induction false} SingleRunText(cs: seq<Cue>)
    requires |Group(cs)| == 1
    ensures Paragraph(Group(cs)[0]) == Concat(Texts(cs))
  {
    GroupKeepsText(cs);
    var g := Group(cs);
    assert ParagraphTexts(g) == [] + [Paragraph(g[0])];
    ConcatStep([], Paragraph(g[0]));
  }
}
