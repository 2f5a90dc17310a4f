/** The merged segments that whisperx hands back after speaker assignment,
    and `convert_seg` (app/transcribers/whisperx.py), which renders one of
    them as a cue body. */
module Segments {
  import opened Wrappers
  import opened Text
  import opened TimeFormat

  /** One entry of `result['segments']`: start and end offsets (whole
      milliseconds), the recognised text, and the speaker label, which is
      missing when no diarization interval overlapped the segment. */
  datatype Segment = Segment(start: nat, end: nat, text: string, speaker: Option<string>)

  /** A segment whose speaker lookup succeeds. */
  datatype Cue = Cue(start: nat, end: nat, speaker: string, text: string)

  /** The cue body: `start --> end`, then the text wrapped in a voice tag
      naming the speaker, with leading whitespace of the text removed. */
  function CueText(c: Cue): string
  {
    Hms(c.start) + " --> " + Hms(c.end) + "\n<v." + c.speaker + ">" + LStrip(c.text) + "</v>\n\n"
  }

  /** `convert_seg`: `segment['speaker']` raises when the label is missing,
      so the block exists exactly when the segment has a speaker. */
  function ConvertSeg(seg: Segment): (r: Option<string>)
    ensures r.Some? <==> seg.speaker.Some?
    ensures r.Some? ==> r.value == CueText(Cue(seg.start, seg.end, seg.speaker.value, seg.text))
  {
    match seg.speaker
    case None => None
    case Some(s) => Some(CueText(Cue(seg.start, seg.end, s, seg.text)))
  }

  /** A cue body reads back field by field: the start time, the arrow, the
      end time, the voice tag with the speaker, the left-stripped text and
      the closing tag. With offsets below 100 hours both times are 12
      characters wide, so the time line is 29 characters. */
  lemma {:induction false} CueTextLayout(c: Cue)
    ensures CueFields(CueText(c), Hms(c.start), Hms(c.end), c.speaker, LStrip(c.text))
    ensures c.start < 100 * MillisPerHour && c.end < 100 * MillisPerHour ==>
      |Hms(c.start)| + |" --> "| + |Hms(c.end)| == 29
  {
    var h1, h2 := Hms(c.start), Hms(c.end);
    assert CueText(c) == h1 + " --> " + h2 + "\n<v." + c.speaker + ">" + LStrip(c.text) + "</v>\n\n";
    Layout(h1, h2, c.speaker, LStrip(c.text));
  }

  /** `r` is the start time `h1`, an arrow, the end time `h2`, a newline and
      the voice tag opening for `sp`, the text `tx` and the closing tag. */
  predicate CueFields(r: string, h1: string, h2: string, sp: string, tx: string)
  {
    var a, b := |h1|, |h2|;
    var t := a + 5 + b + 4 + |sp|;
    && |r| == t + 1 + |tx| + 6
    && r[..a] == h1
    && r[a..a + 5] == " --> "
    && r[a + 5..a + 5 + b] == h2
    && r[a + 5 + b..a + 5 + b + 4] == "\n<v."
    && r[a + 9 + b..t] == sp
    && r[t] == '>'
    && r[t + 1..|r| - 6] == tx
    && r[|r| - 6..] == "</v>\n\n"
  }

  /** The same layout, for any two time strings, speaker and text. */
  lemma {:induction false} Layout(h1: string, h2: string, sp: string, tx: string)
    ensures CueFields(h1 + " --> " + h2 + "\n<v." + sp + ">" + tx + "</v>\n\n", h1, h2, sp, tx)
  {
    var r := h1 + " --> " + h2 + "\n<v." + sp + ">" + tx + "</v>\n\n";
    var a, b := |h1|, |h2|;
    var t := a + 5 + b + 4 + |sp|;
    assert r[..a] == h1;
    assert r[a..a + 5] == " --> ";
    assert r[a + 5..a + 5 + b] == h2;
    assert r[a + 5 + b..a + 5 + b + 4] == "\n<v.";
    assert r[a + 9 + b..t] == sp;
    assert r[t + 1..|r| - 6] == tx;
    assert r[|r| - 6..] == "</v>\n\n";
  }

  /** The time line of a cue body reads back as the segment's start and
      end offsets. */
  lemma {:induction false} CueTimesReadBack(c: Cue)
    ensures var r, a, b := CueText(c), |Hms(c.start)|, |Hms(c.end)|;
      ParseHms(r[..a]) == Some(c.start) && ParseHms(r[a + 5..a + 5 + b]) == Some(c.end)
  {
    CueTextLayout(c);
    HmsRoundTrip(c.start);
    HmsRoundTrip(c.end);
  }

  function ResolveOne(seg: Segment): (cs: seq<Cue>)
    ensures |cs| == if seg.speaker.Some? then 1 else 0
  {
    match seg.speaker
    case None => []
    case Some(s) => [Cue(seg.start, seg.end, s, seg.text)]
  }

  /** The segments whose speaker lookup succeeds, in input order. */
  function Resolved(segs: seq<Segment>): (cs: seq<Cue>)
    ensures |cs| <= |segs|
  {
    if segs == [] then [] else Resolved(segs[..|segs| - 1]) + ResolveOne(segs[|segs| - 1])
  }

  /** How many segments have no speaker. */
  function Skipped(segs: seq<Segment>): (n: nat)
    ensures n <= |segs|
  {
    if segs == [] then 0
    else Skipped(segs[..|segs| - 1]) + (if segs[|segs| - 1].speaker.None? then 1 else 0)
  }

  /** Reading one more segment: it adds its own cue, if any, to the cues of
      the prefix, and counts as skipped when it has no speaker. */
  lemma {:induction false} PrefixStep(segs: seq<Segment>, i: nat)
    requires i < |segs|
    ensures Resolved(segs[..i + 1]) == Resolved(segs[..i]) + ResolveOne(segs[i])
    ensures Skipped(segs[..i + 1]) == Skipped(segs[..i]) + (if segs[i].speaker.None? then 1 else 0)
  {
    var p := segs[..i + 1];
    assert p[..i] == segs[..i] && p[i] == segs[i];
  }

  /** The cue a segment with a speaker stands for. */
  function AsCue(seg: Segment): Cue
    requires seg.speaker.Some?
  {
    Cue(seg.start, seg.end, seg.speaker.value, seg.text)
  }

  /** When every segment has a speaker nothing is filtered out: the k-th cue
      is the k-th segment's. */
  lemma {:induction false} ResolvedAll(segs: seq<Segment>)
    requires forall k :: 0 <= k < |segs| ==> segs[k].speaker.Some?
    ensures |Resolved(segs)| == |segs|
    ensures forall k :: 0 <= k < |segs| ==> Resolved(segs)[k] == AsCue(segs[k])
  {
    if segs != [] {
      var init, last := segs[..|segs| - 1], segs[|segs| - 1];
      assert forall k :: 0 <= k < |init| ==> init[k] == segs[k];
      ResolvedAll(init);
      assert Resolved(segs) == Resolved(init) + [AsCue(last)];
    }
  }

  /** Every segment is either resolved or skipped. */
  lemma {:induction false} ResolvedCount(segs: seq<Segment>)
    ensures |Resolved(segs)| + Skipped(segs) == |segs|
  {
    if segs != [] {
      ResolvedCount(segs[..|segs| - 1]);
    }
  }

  /** Filtering keeps the order: the resolved segments of a concatenation
      are those of the first part followed by those of the second. */
  lemma {:induction false} ResolvedAppend(a: seq<Segment>, b: seq<Segment>)
    ensures Resolved(a + b) == Resolved(a) + Resolved(b)
  {
    if b == [] {
      assert a + b == a;
    } else {
      var ab, init, last := a + b, b[..|b| - 1], b[|b| - 1];
      assert ab[..|ab| - 1] == a + init && ab[|ab| - 1] == last;
      assert Resolved(ab) == Resolved(a + init) + ResolveOne(last);
      assert Resolved(b) == Resolved(init) + ResolveOne(last);
      ResolvedAppend(a, init);
      AppendAssoc(Resolved(a), Resolved(init), ResolveOne(last));
    }
  }

  /** A segment without a speaker contributes nothing wherever it stands. */
  lemma {:induction false} ResolvedSkip(a: seq<Segment>, u: Segment, b: seq<Segment>)
    requires u.speaker.None?
    ensures Resolved(a + [u] + b) == Resolved(a + b)
  {
    ResolvedAppend(a + [u], b);
    ResolvedAppend(a, b);
    assert (a + [u])[..|a|] == a;
  }

  /** A segment with a speaker becomes exactly one cue. */
  lemma {:induction false} ResolvedKeep(a: seq<Segment>, s: Segment, b: seq<Segment>)
    requires s.speaker.Some?
    ensures Resolved(a + [s] + b) == Resolved(a) + [Cue(s.start, s.end, s.speaker.value, s.text)] + Resolved(b)
  {
    ResolvedAppend(a + [s], b);
    assert (a + [s])[..|a|] == a;
  }
}
