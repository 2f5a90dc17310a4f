/** `convert_segs_par` and the paragraph writer of `transcribe`
    (app/transcribers/whisperx.py). The loop is proved against
    `ParagraphSpec`, which is defined from the maximal runs of `Runs`. */
module Paragraphs {
  import opened Wrappers
  import opened Text
  import opened Segments
  import opened Runs

  /** What `convert_segs_par` hands back: `more_than_one` and the
      `paragraph_output` dictionary, whose two entries are plain strings in
      the single-speaker case and parallel lists otherwise. */
  datatype ParagraphOutput =
    | Single(speaker: string, paragraph: string)
    | Many(speakers: seq<string>, paragraphs: seq<string>)

  datatype Grouped = Grouped(moreThanOne: bool, output: ParagraphOutput)

  /** The flag agrees with the shape and the lists have equal length. */
  predicate WellFormed(g: Grouped)
  {
    && g.moreThanOne == g.output.Many?
    && (g.output.Many? ==> |g.output.speakers| == |g.output.paragraphs|)
  }

  lemma {:induction false} ResolvedFirst(segs: seq<Segment>)
    requires segs != [] && segs[0].speaker.Some?
    ensures Resolved(segs) != [] && Resolved(segs)[0].speaker == segs[0].speaker.value
  {
    assert segs == [] + [segs[0]] + segs[1..];
    ResolvedKeep([], segs[0], segs[1..]);
    assert Resolved([]) == [];
  }

  /** What `convert_segs_par` computes, as a function of its input. `None`
      is the crash of line 29: an empty list, or a first segment without a
      speaker. Otherwise the runs of the resolved segments: all of them in
      the single-speaker case, and every run except the final one when the
      speaker ever changes (nothing after the loop appends that run). */
  function ParagraphSpec(segs: seq<Segment>): (r: Option<Grouped>)
    ensures r.None? <==> segs == [] || segs[0].speaker.None?
    ensures r.Some? ==> WellFormed(r.value) && Resolved(segs) != []
  {
    if segs == [] || segs[0].speaker.None? then None
    else
      ResolvedFirst(segs);
      var runs := Group(Resolved(segs));
      var n := |runs|;
      if n == 1 then Some(Grouped(false, Single(runs[0].speaker, Paragraph(runs[0]))))
      else Some(Grouped(true, Many(Speakers(runs[..n - 1]), ParagraphTexts(runs[..n - 1]))))
  }

  /** `more_than_one` is false exactly when every resolved segment has the
      first segment's speaker; then the output is that speaker with all the
      resolved texts concatenated in order. */
  lemma {:induction false} SingleSpeakerCase(segs: seq<Segment>)
    requires ParagraphSpec(segs).Some?
    ensures var g, cs := ParagraphSpec(segs).value, Resolved(segs);
      && (!g.moreThanOne <==> forall i :: 0 <= i < |cs| ==> cs[i].speaker == segs[0].speaker.value)
      && (!g.moreThanOne ==> g.output == Single(segs[0].speaker.value, Concat(Texts(cs))))
  {
    var cs := Resolved(segs);
    ResolvedFirst(segs);
    SingleRunIff(cs);
    GroupEnds(cs);
    if |Group(cs)| == 1 {
      SingleRunText(cs);
    }
  }

  /** When the speaker changes, the lists hold one entry per speaker change:
      neighbouring entries have different speakers, the first is the first
      segment's speaker, and the paragraphs followed by the final run that
      is never emitted give every resolved text in order. That final run
      belongs to the last resolved segment's speaker, which differs from the
      last emitted one. */
  lemma {:induction false} ManySpeakersCase(segs: seq<Segment>)
    requires ParagraphSpec(segs).Some? && ParagraphSpec(segs).value.moreThanOne
    ensures var out, cs := ParagraphSpec(segs).value.output, Resolved(segs);
      var runs := Group(cs);
      var dropped := runs[|runs| - 1];
      && |out.speakers| == |out.paragraphs| == |runs| - 1 >= 1
      && (forall i :: 0 < i < |out.speakers| ==> out.speakers[i - 1] != out.speakers[i])
      && out.speakers[0] == segs[0].speaker.value
      && Concat(out.paragraphs) + Paragraph(dropped) == Concat(Texts(cs))
      && dropped.speaker == cs[|cs| - 1].speaker
      && out.speakers[|out.speakers| - 1] != dropped.speaker
  {
    var cs := Resolved(segs);
    var runs := Group(cs);
    var n := |runs|;
    ResolvedFirst(segs);
    assert n != 1;
    assert ParagraphSpec(segs).value.output == Many(Speakers(runs[..n - 1]), ParagraphTexts(runs[..n - 1]));
    AllButLastRun(cs);
  }

  /** The runs other than the last one, as the two parallel lists. */
  lemma {:induction false} AllButLastRun(cs: seq<Cue>)
    requires |Group(cs)| > 1
    ensures var runs := Group(cs);
      var n := |runs|;
      var ss, ps := Speakers(runs[..n - 1]), ParagraphTexts(runs[..n - 1]);
      && |ss| == |ps| == n - 1 >= 1
      && (forall i :: 0 < i < |ss| ==> ss[i - 1] != ss[i])
      && ss[0] == cs[0].speaker
      && Concat(ps) + Paragraph(runs[n - 1]) == Concat(Texts(cs))
      && runs[n - 1].speaker == cs[|cs| - 1].speaker
      && ss[|ss| - 1] != runs[n - 1].speaker
  {
    var runs := Group(cs);
    var n := |runs|;
    var ss := Speakers(runs[..n - 1]);
    GroupCorrect(cs);
    GroupEnds(cs);
    forall i | 0 < i < |ss| ensures ss[i - 1] != ss[i] {
      assert ss[i - 1] == runs[i - 1].speaker && ss[i] == runs[i].speaker;
    }
    assert ss[0] == runs[0].speaker;
    assert ss[n - 2] == runs[n - 2].speaker;
    DroppedRunText(cs);
  }

  /** The paragraphs of every run but the last, followed by the last run's
      paragraph, are all the texts in order. */
  lemma {:induction false} DroppedRunText(cs: seq<Cue>)
    requires |Group(cs)| > 1
    ensures var runs := Group(cs);
      var n := |runs|;
      Concat(ParagraphTexts(runs[..n - 1])) + Paragraph(runs[n - 1]) == Concat(Texts(cs))
  {
    var runs := Group(cs);
    var n := |runs|;
    var ps := ParagraphTexts(runs[..n - 1]);
    GroupKeepsText(cs);
    assert runs == runs[..n - 1] + [runs[n - 1]];
    ParagraphTextsStep(runs[..n - 1], runs[n - 1]);
    ConcatStep(ps, Paragraph(runs[n - 1]));
  }

  /** A segment without a speaker after the first one changes nothing:
      neither the current speaker nor the paragraph being accumulated. */
  lemma {:induction false} SkipsUnresolved(a: seq<Segment>, u: Segment, b: seq<Segment>)
    requires a != [] && u.speaker.None?
    ensures ParagraphSpec(a + [u] + b) == ParagraphSpec(a + b)
  {
    ResolvedSkip(a, u, b);
    assert (a + [u] + b)[0] == a[0] == (a + b)[0];
  }

  /** The loop's variables describe the runs read so far: the current
      speaker and paragraph are the last run, the lists hold the runs before
      it, and `more_than_one` says whether there are any. */
  predicate Tracks(runs: seq<Run>, speaker: string, paragraph: string,
                   speakers: seq<string>, paragraphs: seq<string>, moreThanOne: bool)
  {
    && runs != []
    && speaker == runs[|runs| - 1].speaker
    && paragraph == Paragraph(runs[|runs| - 1])
    && speakers == Speakers(runs[..|runs| - 1])
    && paragraphs == ParagraphTexts(runs[..|runs| - 1])
    && (moreThanOne <==> |runs| > 1)
  }

  /** Lines 37-38: the same speaker extends the paragraph. */
  lemma {:induction false} SameSpeakerStep(runs: seq<Run>, speaker: string, paragraph: string,
                        speakers: seq<string>, paragraphs: seq<string>, moreThanOne: bool, c: Cue)
    requires Tracks(runs, speaker, paragraph, speakers, paragraphs, moreThanOne)
    requires c.speaker == speaker
    ensures Tracks(Extend(runs, c), speaker, paragraph + c.text, speakers, paragraphs, moreThanOne)
  {
    var n := |runs|;
    var last := runs[n - 1];
    var e := Extend(runs, c);
    assert e == runs[..n - 1] + [Run(c.speaker, last.texts + [c.text])];
    assert e[..n - 1] == runs[..n - 1];
    ConcatStep(last.texts, c.text);
  }

  /** Lines 39-44: another speaker flushes the current run into the lists
      and starts a new paragraph. */
  lemma {:induction false} NewSpeakerStep(runs: seq<Run>, speaker: string, paragraph: string,
                       speakers: seq<string>, paragraphs: seq<string>, moreThanOne: bool, c: Cue)
    requires Tracks(runs, speaker, paragraph, speakers, paragraphs, moreThanOne)
    requires c.speaker != speaker
    ensures Tracks(Extend(runs, c), c.speaker, c.text, speakers + [speaker], paragraphs + [paragraph], true)
  {
    var n := |runs|;
    var e := Extend(runs, c);
    assert e == runs + [Run(c.speaker, [c.text])];
    assert e[..n] == runs;
    assert runs == runs[..n - 1] + [runs[n - 1]];
    assert Speakers(runs) == Speakers(runs[..n - 1]) + [speaker];
    ParagraphTextsStep(runs[..n - 1], runs[n - 1]);
    ConcatStep([], c.text);
    assert [] + [c.text] == [c.text];
  }

  /** The first iteration: the first segment has the initial speaker, so it
      only fills the empty paragraph. */
  lemma {:induction false} FirstStep(s: string, t: string)
    ensures Tracks([Run(s, [t])], s, "" + t, [], [], false)
  {
    ConcatStep([], t);
    assert [] + [t] == [t];
    assert [Run(s, [t])][..0] == [];
  }

  /** After the loop, lines 48-52 build the result from the variables. */
  lemma {:induction false} LoopResult(segs: seq<Segment>, speaker: string, paragraph: string,
                   speakers: seq<string>, paragraphs: seq<string>, moreThanOne: bool)
    requires segs != [] && segs[0].speaker.Some?
    requires Tracks(Group(Resolved(segs)), speaker, paragraph, speakers, paragraphs, moreThanOne)
    ensures moreThanOne ==> ParagraphSpec(segs) == Some(Grouped(true, Many(speakers, paragraphs)))
    ensures !moreThanOne ==> ParagraphSpec(segs) == Some(Grouped(false, Single(speaker, paragraph)))
  {
  }

  /** The loop invariant after reading `segs[..i]`: the skip counter
      counts the segments without a speaker, and once a segment has been
      read the variables track the runs of the resolved prefix. */
  predicate LoopState(segs: seq<Segment>, i: nat, speaker: string, paragraph: string,
                      speakers: seq<string>, paragraphs: seq<string>, moreThanOne: bool, decrement: nat)
    requires i <= |segs| && segs != [] && segs[0].speaker.Some?
  {
    && decrement == Skipped(segs[..i])
    && (i == 0 ==> speaker == segs[0].speaker.value && paragraph == "" && speakers == [] && paragraphs == [] && !moreThanOne)
    && (i > 0 ==> Tracks(Group(Resolved(segs[..i])), speaker, paragraph, speakers, paragraphs, moreThanOne))
  }

  /** Lines 45-46: a segment without a speaker only bumps the counter. */
  lemma {:induction false} SkipIteration(segs: seq<Segment>, i: nat, speaker: string, paragraph: string,
                      speakers: seq<string>, paragraphs: seq<string>, moreThanOne: bool, decrement: nat)
    requires i < |segs| && segs[0].speaker.Some? && segs[i].speaker.None?
    requires LoopState(segs, i, speaker, paragraph, speakers, paragraphs, moreThanOne, decrement)
    ensures LoopState(segs, i + 1, speaker, paragraph, speakers, paragraphs, moreThanOne, decrement + 1)
  {
    LoopStep(segs, i);
  }

  /** Lines 37-38 at any position, including the first segment, whose
      speaker is the initial one. */
  lemma {:induction false} SameIteration(segs: seq<Segment>, i: nat, speaker: string, paragraph: string,
                      speakers: seq<string>, paragraphs: seq<string>, moreThanOne: bool, decrement: nat)
    requires i < |segs| && segs[0].speaker.Some? && segs[i].speaker == Some(speaker)
    requires LoopState(segs, i, speaker, paragraph, speakers, paragraphs, moreThanOne, decrement)
    ensures LoopState(segs, i + 1, speaker, paragraph + segs[i].text, speakers, paragraphs, moreThanOne, decrement)
  {
    LoopStep(segs, i);
    if i == 0 {
      FirstStep(speaker, segs[0].text);
    } else {
      var c := Cue(segs[i].start, segs[i].end, speaker, segs[i].text);
      SameSpeakerStep(Group(Resolved(segs[..i])), speaker, paragraph, speakers, paragraphs, moreThanOne, c);
    }
  }

  /** Lines 39-44: a new speaker (never on the first segment). */
  lemma {:induction false} NewIteration(segs: seq<Segment>, i: nat, speaker: string, paragraph: string,
                      speakers: seq<string>, paragraphs: seq<string>, moreThanOne: bool, decrement: nat)
    requires i < |segs| && segs[0].speaker.Some? && segs[i].speaker.Some? && segs[i].speaker.value != speaker
    requires LoopState(segs, i, speaker, paragraph, speakers, paragraphs, moreThanOne, decrement)
    ensures i > 0
    ensures LoopState(segs, i + 1, segs[i].speaker.value, segs[i].text, speakers + [speaker], paragraphs + [paragraph], true, decrement)
  {
    LoopStep(segs, i);
    var c := Cue(segs[i].start, segs[i].end, segs[i].speaker.value, segs[i].text);
    NewSpeakerStep(Group(Resolved(segs[..i])), speaker, paragraph, speakers, paragraphs, moreThanOne, c);
  }

  /** The loop of `convert_segs_par`, statement by statement: the current
      speaker and paragraph, the `more_than_one` flag, the skip counter and
      the two lists it appends to when the speaker changes. */
  method ConvertSegsPar(segs: seq<Segment>) returns (r: Option<Grouped>)
    ensures r == ParagraphSpec(segs)
  {
    if segs == [] || segs[0].speaker.None? {
      return None;
    }
    var speaker := segs[0].speaker.value;
    var moreThanOne := false;
    var decrement := 0;
    var paragraph := "";
    var speakers: seq<string> := [];
    var paragraphs: seq<string> := [];
    for i := 0 to |segs|
      invariant LoopState(segs, i, speaker, paragraph, speakers, paragraphs, moreThanOne, decrement)
    {
      var seg := segs[i];
      match seg.speaker {
        case None =>
          SkipIteration(segs, i, speaker, paragraph, speakers, paragraphs, moreThanOne, decrement);
          decrement := decrement + 1;
        case Some(s) =>
          if s == speaker {
            SameIteration(segs, i, speaker, paragraph, speakers, paragraphs, moreThanOne, decrement);
            paragraph := paragraph + seg.text;
          } else {
            NewIteration(segs, i, speaker, paragraph, speakers, paragraphs, moreThanOne, decrement);
            moreThanOne := true;
            speakers := speakers + [speaker];
            paragraphs := paragraphs + [paragraph];
            speaker := s;
            paragraph := seg.text;
          }
      }
    }
    assert segs[..|segs|] == segs;
    LoopResult(segs, speaker, paragraph, speakers, paragraphs, moreThanOne);
    if !moreThanOne {
      r := Some(Grouped(false, Single(speaker, paragraph)));
    } else {
      r := Some(Grouped(true, Many(speakers, paragraphs)));
    }
  }

  /** How one iteration changes the runs of the prefix read so far. */
  lemma {:induction false} LoopStep(segs: seq<Segment>, i: nat)
    requires i < |segs| && segs[0].speaker.Some?
    ensures Skipped(segs[..i + 1]) == Skipped(segs[..i]) + (if segs[i].speaker.None? then 1 else 0)
    ensures segs[i].speaker.None? ==> Resolved(segs[..i + 1]) == Resolved(segs[..i])
    ensures segs[i].speaker.Some? ==>
      Group(Resolved(segs[..i + 1])) == Extend(Group(Resolved(segs[..i])), Cue(segs[i].start, segs[i].end, segs[i].speaker.value, segs[i].text))
    ensures i == 0 ==> Group(Resolved(segs[..1])) == [Run(segs[0].speaker.value, [segs[0].text])]
  {
    var p := segs[..i + 1];
    assert p[..i] == segs[..i] && p[i] == segs[i];
    if segs[i].speaker.Some? {
      var c := Cue(segs[i].start, segs[i].end, segs[i].speaker.value, segs[i].text);
      assert Resolved(p) == Resolved(segs[..i]) + [c];
      GroupStep(Resolved(segs[..i]), c);
    }
    if i == 0 {
      assert segs[..0] == [];
    }
  }

  /** One block of the paragraph file: the speaker on its own line, then the
      paragraph with leading whitespace removed, then a blank line. */
  function ParagraphBlock(speaker: string, paragraph: string): string
  {
    speaker + "\n" + LStrip(paragraph) + "\n\n"
  }

  /** The blocks for two parallel lists, in list order. */
  function Blocks(ss: seq<string>, ps: seq<string>): string
    requires |ss| == |ps|
  {
    if ss == [] then ""
    else Blocks(ss[..|ss| - 1], ps[..|ps| - 1]) + ParagraphBlock(ss[|ss| - 1], ps[|ps| - 1])
  }

  /** The text of the `.txt` file: one block in the single-speaker case, one
      block per list entry otherwise. */
  function ParagraphFile(out: ParagraphOutput): string
    requires out.Many? ==> |out.speakers| == |out.paragraphs|
  {
    match out
    case Single(s, p) => ParagraphBlock(s, p)
    case Many(ss, ps) => Blocks(ss, ps)
  }

  lemma {:induction false} BlocksStep(ss: seq<string>, ps: seq<string>, i: nat)
    requires |ss| == |ps| && i < |ss|
    ensures Blocks(ss[..i + 1], ps[..i + 1]) == Blocks(ss[..i], ps[..i]) + ParagraphBlock(ss[i], ps[i])
  {
    assert ss[..i + 1][..i] == ss[..i] && ps[..i + 1][..i] == ps[..i];
  }

  lemma {:induction false} BlockParts(speaker: string, paragraph: string, before: string)
    ensures before + (speaker + "\n") + (LStrip(paragraph) + "\n\n") == before + ParagraphBlock(speaker, paragraph)
  {
    AppendAssoc(before, speaker + "\n", LStrip(paragraph) + "\n\n");
    AppendAssoc(speaker + "\n", LStrip(paragraph), "\n\n");
  }

  /** The writes of lines 118-124, accumulated into the file's text. */
  method WriteParagraphs(g: Grouped) returns (text: string)
    requires WellFormed(g)
    ensures text == ParagraphFile(g.output)
  {
    text := "";
    if g.moreThanOne {
      var ss, ps := g.output.speakers, g.output.paragraphs;
      for i := 0 to |ss|
        invariant text == Blocks(ss[..i], ps[..i])
      {
        BlocksStep(ss, ps, i);
        BlockParts(ss[i], ps[i], text);
        text := text + (ss[i] + "\n");
        text := text + (LStrip(ps[i]) + "\n\n");
      }
      assert ss[..|ss|] == ss && ps[..|ps|] == ps;
    } else {
      BlockParts(g.output.speaker, g.output.paragraph, text);
      text := text + (g.output.speaker + "\n");
      text := text + (LStrip(g.output.paragraph) + "\n\n");
    }
  }

  /** The blocks of a sequence of runs. */
  function RunBlocks(runs: seq<Run>): string
  {
    if runs == [] then ""
    else RunBlocks(runs[..|runs| - 1]) + ParagraphBlock(runs[|runs| - 1].speaker, Paragraph(runs[|runs| - 1]))
  }

  lemma {:induction false} BlocksOfRuns(runs: seq<Run>)
    ensures Blocks(Speakers(runs), ParagraphTexts(runs)) == RunBlocks(runs)
  {
    if runs != [] {
      var n := |runs|;
      var init, last := runs[..n - 1], runs[n - 1];
      var ss, ps := Speakers(runs), ParagraphTexts(runs);
      assert ss[..n - 1] == Speakers(init);
      assert ps[..n - 1] == ParagraphTexts(init);
      assert ss[n - 1] == last.speaker && ps[n - 1] == Paragraph(last);
      assert Blocks(ss, ps) == Blocks(ss[..n - 1], ps[..n - 1]) + ParagraphBlock(ss[n - 1], ps[n - 1]);
      BlocksOfRuns(init);
      assert RunBlocks(runs) == RunBlocks(init) + ParagraphBlock(last.speaker, Paragraph(last));
    }
  }

  /** The paragraph file written for a list of segments, against the file
      with one block per maximal run: they agree when there is a single
      speaker, and otherwise the written file lacks exactly the final
      run's block. */
  lemma {:induction false} ParagraphFileOfSegments(segs: seq<Segment>)
    requires ParagraphSpec(segs).Some?
    ensures var g, runs := ParagraphSpec(segs).value, Group(Resolved(segs));
      var last := runs[|runs| - 1];
      && (!g.moreThanOne ==> ParagraphFile(g.output) == RunBlocks(runs))
      && (g.moreThanOne ==> ParagraphFile(g.output) + ParagraphBlock(last.speaker, Paragraph(last)) == RunBlocks(runs))
  {
    FileOfRuns(Group(Resolved(segs)));
  }

  lemma {:induction false} FileOfRuns(runs: seq<Run>)
    requires runs != []
    ensures var n := |runs|;
      var block := ParagraphBlock(runs[n - 1].speaker, Paragraph(runs[n - 1]));
      && (n == 1 ==> ParagraphFile(Single(runs[0].speaker, Paragraph(runs[0]))) == RunBlocks(runs))
      && (n > 1 ==> ParagraphFile(Many(Speakers(runs[..n - 1]), ParagraphTexts(runs[..n - 1]))) + block == RunBlocks(runs))
  {
    var n := |runs|;
    var last := runs[n - 1];
    var block := ParagraphBlock(last.speaker, Paragraph(last));
    assert RunBlocks(runs) == RunBlocks(runs[..n - 1]) + block;
    if n == 1 {
      assert ParagraphFile(Single(runs[0].speaker, Paragraph(runs[0]))) == block;
      assert runs[..0] == [];
    } else {
      var out := Many(Speakers(runs[..n - 1]), ParagraphTexts(runs[..n - 1]));
      assert ParagraphFile(out) == Blocks(out.speakers, out.paragraphs);
      BlocksOfRuns(runs[..n - 1]);
    }
  }

  /** Two segments of one speaker followed by one of another (as "hi ",
      "there" by A, then "ok" by B): the runs are A's two texts and B's
      one, but the paragraph file holds only A's block, "hi there". */
  lemma {:induction false} DropsFinalRun(s0: Segment, s1: Segment, s2: Segment)
    requires s0.speaker.Some? && s1.speaker == s0.speaker
    requires s2.speaker.Some? && s2.speaker != s0.speaker
    ensures var segs, a, b := [s0, s1, s2], s0.speaker.value, s2.speaker.value;
      && Group(Resolved(segs)) == [Run(a, [s0.text, s1.text]), Run(b, [s2.text])]
      && ParagraphSpec(segs) == Some(Grouped(true, Many([a], [s0.text + s1.text])))
      && ParagraphFile(ParagraphSpec(segs).value.output) == ParagraphBlock(a, s0.text + s1.text)
  {
    ThreeGroup(s0, s1, s2);
    ThreeSpec(s0, s1, s2);
    OneBlockFile(s0.speaker.value, s0.text + s1.text);
  }

  lemma {:induction false} ThreeGroup(s0: Segment, s1: Segment, s2: Segment)
    requires s0.speaker.Some? && s1.speaker == s0.speaker
    requires s2.speaker.Some? && s2.speaker != s0.speaker
    ensures Group(Resolved([s0, s1, s2])) == [Run(s0.speaker.value, [s0.text, s1.text]), Run(s2.speaker.value, [s2.text])]
  {
    ThreeResolved(s0, s1, s2);
    GroupOfThree(AsCue(s0), AsCue(s1), AsCue(s2));
  }

  lemma {:induction false} ThreeResolved(s0: Segment, s1: Segment, s2: Segment)
    requires s0.speaker.Some? && s1.speaker.Some? && s2.speaker.Some?
    ensures Resolved([s0, s1, s2]) == [AsCue(s0), AsCue(s1), AsCue(s2)]
  {
    var segs := [s0, s1, s2];
    ResolvedAll(segs);
    var cs := Resolved(segs);
    assert cs[0] == AsCue(segs[0]) && cs[1] == AsCue(segs[1]) && cs[2] == AsCue(segs[2]);
  }

  /** Two cues of one speaker and a third of another form two runs. */
  lemma {:induction false} GroupOfThree(c0: Cue, c1: Cue, c2: Cue)
    requires c1.speaker == c0.speaker && c2.speaker != c0.speaker
    ensures Group([c0, c1, c2]) == [Run(c0.speaker, [c0.text, c1.text]), Run(c2.speaker, [c2.text])]
  {
    var r0 := Run(c0.speaker, [c0.text]);
    assert Group([c0]) == [r0] by {
      GroupStep([], c0);
      assert [] + [c0] == [c0];
    }
    GroupStep([c0], c1);
    assert [c0] + [c1] == [c0, c1];
    assert Extend([r0], c1) == [Run(c0.speaker, [c0.text, c1.text])] by {
      assert [r0][..0] == [] && [c0.text] + [c1.text] == [c0.text, c1.text];
    }
    GroupStep([c0, c1], c2);
    assert [c0, c1] + [c2] == [c0, c1, c2];
  }

  lemma {:induction false} ThreeSpec(s0: Segment, s1: Segment, s2: Segment)
    requires s0.speaker.Some? && s1.speaker == s0.speaker
    requires s2.speaker.Some? && s2.speaker != s0.speaker
    ensures ParagraphSpec([s0, s1, s2]) == Some(Grouped(true, Many([s0.speaker.value], [s0.text + s1.text])))
  {
    var segs := [s0, s1, s2];
    ThreeGroup(s0, s1, s2);
    var first := Run(s0.speaker.value, [s0.text, s1.text]);
    var runs := [first, Run(s2.speaker.value, [s2.text])];
    assert Group(Resolved(segs)) == runs && |runs| == 2;
    assert runs[..1] == [first];
    assert Paragraph(first) == s0.text + s1.text by {
      ConcatStep([], s0.text);
      ConcatStep([s0.text], s1.text);
      assert [] + [s0.text] == [s0.text] && [s0.text] + [s1.text] == [s0.text, s1.text];
      assert "" + s0.text == s0.text;
    }
    assert Speakers(runs[..1]) == [s0.speaker.value];
    assert ParagraphTexts(runs[..1]) == [s0.text + s1.text];
  }

  /** Lists of one entry give the file of one block. */
  lemma {:induction false} OneBlockFile(speaker: string, paragraph: string)
    ensures ParagraphFile(Many([speaker], [paragraph])) == ParagraphBlock(speaker, paragraph)
  {
    var ss, ps := [speaker], [paragraph];
    var block := ParagraphBlock(speaker, paragraph);
    assert ss[..0] == [] && ps[..0] == [];
    assert Blocks(ss, ps) == "" + block;
    AppendEmpty(block);
  }
}
