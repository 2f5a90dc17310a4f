/** The WebVTT branch of `transcribe` (app/transcribers/whisperx.py): one
    `write` per segment of `"{i-decrement}\n"` followed by `convert_seg`,
    where a segment whose block cannot be built is skipped and bumps
    `decrement`, so that the written numbers stay consecutive. */
module CueFile {
  import opened Wrappers
  import opened Text
  import opened Segments

  /** One written block: a cue and the number written before it. */
  datatype Block = Block(number: nat, cue: Cue)

  /** The text of one write: the number on a line of its own, then the cue. */
  function BlockText(b: Block): string
  {
    Decimal(b.number) + "\n" + CueText(b.cue)
  }

  /** The cues in order, numbered from 1. */
  function Numbered(cs: seq<Cue>): (bs: seq<Block>)
    ensures |bs| == |cs|
  {
    if cs == [] then [] else Numbered(cs[..|cs| - 1]) + [Block(|cs|, cs[|cs| - 1])]
  }

  /** What the loop writes for the resolved cues: one block text each. */
  function CueWrites(cs: seq<Cue>): (w: seq<string>)
    ensures |w| == |cs|
  {
    Map(BlockText, Numbered(cs))
  }

  lemma {:induction false} CueWritesStep(cs: seq<Cue>, c: Cue)
    ensures CueWrites(cs + [c]) == CueWrites(cs) + [BlockText(Block(|cs| + 1, c))]
  {
    assert (cs + [c])[..|cs|] == cs;
    assert Numbered(cs + [c]) == Numbered(cs) + [Block(|cs| + 1, c)];
    MapSnoc(BlockText, Numbered(cs), Block(|cs| + 1, c));
  }

  /** The k-th block is the k-th cue under number k + 1. */
  lemma {:induction false} NumberedIndex(cs: seq<Cue>, k: nat)
    requires k < |cs|
    ensures Numbered(cs)[k] == Block(k + 1, cs[k])
  {
    var init := cs[..|cs| - 1];
    if k < |init| {
      NumberedIndex(init, k);
      assert init[k] == cs[k];
    }
  }

  /** The k-th write is the k-th cue's text under number k + 1. */
  lemma {:induction false} CueWritesIndex(cs: seq<Cue>, k: nat)
    requires k < |cs|
    ensures CueWrites(cs)[k] == BlockText(Block(k + 1, cs[k]))
  {
    NumberedIndex(cs, k);
    MapIndex(BlockText, Numbered(cs), k);
  }

  /** The loop of lines 129-133, for either binding of `decrement` when the
      loop starts: `None` is the source as written, where `decrement` is a
      local of `transcribe` never assigned before line 131, and `Some(0)` the
      initialisation that `convert_segs_par` makes at its line 31. `None`
      as a result is an exception escaping `transcribe`. The f-string
      evaluates `i-decrement` before calling `convert_seg`, so an unbound
      counter fails first; the bare `except` then runs `decrement += 1`,
      which reads it again and raises out of the loop. */
  method CueLoop(segs: seq<Segment>, start: Option<int>) returns (r: Option<seq<string>>)
    requires start == None || start == Some(0)
    ensures start.None? ==> r == if segs == [] then Some([]) else None
    ensures start.Some? ==> r == Some(CueWrites(Resolved(segs)))
  {
    var writes: seq<string> := [];
    var decrement := start;
    for idx := 0 to |segs|
      invariant start.None? ==> idx == 0 && decrement.None? && writes == []
      invariant start.Some? ==> decrement == Some(Skipped(segs[..idx]))
      invariant start.Some? ==> writes == CueWrites(Resolved(segs[..idx]))
    {
      var i := idx + 1;
      if decrement.None? {
        return None;
      }
      var d := decrement.value;
      match ConvertSeg(segs[idx]) {
        case None =>
          SkipStep(segs, idx, d, writes);
          decrement := Some(d + 1);
        case Some(body) =>
          KeepStep(segs, idx, i, d, writes, body);
          writes := writes + [Decimal(i - d) + "\n" + body];
      }
    }
    assert segs[..|segs|] == segs;
    r := Some(writes);
  }

  /** A segment whose block fails bumps the counter and writes nothing. */
  lemma {:induction false} SkipStep(segs: seq<Segment>, idx: nat, d: int, writes: seq<string>)
    requires idx < |segs| && d == Skipped(segs[..idx]) && writes == CueWrites(Resolved(segs[..idx]))
    requires ConvertSeg(segs[idx]).None?
    ensures Skipped(segs[..idx + 1]) == d + 1
    ensures CueWrites(Resolved(segs[..idx + 1])) == writes
  {
    PrefixStep(segs, idx);
    assert ResolveOne(segs[idx]) == [];
    assert Resolved(segs[..idx]) + [] == Resolved(segs[..idx]);
  }

  /** A segment whose block succeeds is written under the number of cues so
      far plus one, which is `i - decrement` for its position `i`. */
  lemma {:induction false} KeepStep(segs: seq<Segment>, idx: nat, i: int, d: int, writes: seq<string>, body: string)
    requires idx < |segs| && i == idx + 1
    requires d == Skipped(segs[..idx]) && writes == CueWrites(Resolved(segs[..idx]))
    requires ConvertSeg(segs[idx]) == Some(body)
    ensures i - d >= 1
    ensures Skipped(segs[..idx + 1]) == d
    ensures CueWrites(Resolved(segs[..idx + 1])) == writes + [Decimal(i - d) + "\n" + body]
  {
    PrefixStep(segs, idx);
    ResolvedCount(segs[..idx]);
    var c := AsCue(segs[idx]);
    assert ResolveOne(segs[idx]) == [c];
    CueWritesStep(Resolved(segs[..idx]), c);
    assert BlockText(Block(i - d, c)) == Decimal(i - d) + "\n" + body;
  }

  /** The loop as the source has it: any non-empty list of segments raises
      before the first block is written, leaving the `.vtt` file empty. */
  method WriteCuesAsWritten(segs: seq<Segment>) returns (r: Option<seq<string>>)
    ensures r == if segs == [] then Some([]) else None
  {
    r := CueLoop(segs, None);
  }

  /** The loop with `decrement` initialised to 0: one block per segment that
      has a speaker, in input order, numbered 1, 2, ... */
  method WriteCues(segs: seq<Segment>) returns (writes: seq<string>)
    ensures writes == CueWrites(Resolved(segs))
  {
    var r := CueLoop(segs, Some(0));
    writes := r.value;
  }

  /** The number a block starts with, as a reader of the file sees it: the
      digits before the first newline. */
  function BlockNumber(w: string): Option<nat>
  {
    var p := BeforeFirst(w, '\n');
    if AllDigits(p) then Some(DigitsValue(p)) else None
  }

  /** Numbering has no gaps: the k-th block written carries k + 1, and its
      body is the k-th cue, whatever segments were skipped between them. */
  lemma {:induction false} GaplessNumbering(segs: seq<Segment>, k: nat)
    requires k < |CueWrites(Resolved(segs))|
    ensures BlockNumber(CueWrites(Resolved(segs))[k]) == Some(k + 1)
  {
    var cs := Resolved(segs);
    CueWritesIndex(cs, k);
    BlockReadBack(CueWrites(cs)[k], Block(k + 1, cs[k]));
  }

  /** A written block reads back the number it was written with. */
  lemma {:induction false} BlockReadBack(w: string, b: Block)
    requires w == BlockText(b)
    ensures BlockNumber(w) == Some(b.number)
  {
    NumberReadBack(b.number, CueText(b.cue));
  }

  /** Any block reads back the number it was written with. */
  lemma {:induction false} NumberReadBack(n: nat, body: string)
    ensures BlockNumber(Decimal(n) + "\n" + body) == Some(n)
  {
    var d := Decimal(n);
    forall j | 0 <= j < |d| ensures d[j] != '\n' {
      assert IsDigit(d[j]);
    }
    assert d + "\n" + body == d + ['\n'] + body;
    BeforeFirstOf(d, '\n', body);
    DecimalRoundTrip(n);
  }

  /** One block per segment with a speaker: the skipped segments are exactly
      the ones that write nothing. */
  lemma {:induction false} BlockCount(segs: seq<Segment>)
    ensures |CueWrites(Resolved(segs))| == |segs| - Skipped(segs)
  {
    ResolvedCount(segs);
  }

  /** A segment without a speaker, wherever it stands, leaves the file as if
      it were not there; the blocks around it keep their order and their
      numbers close up. */
  lemma {:induction false} SkippedWritesNothing(a: seq<Segment>, u: Segment, b: seq<Segment>)
    requires u.speaker.None?
    ensures CueWrites(Resolved(a + [u] + b)) == CueWrites(Resolved(a + b))
  {
    ResolvedSkip(a, u, b);
  }

  /** In order: the blocks of a concatenation are those of the first part,
      then those of the second renumbered after them. */
  lemma {:induction false} BlocksInOrder(a: seq<Segment>, b: seq<Segment>, k: nat)
    requires k < |Resolved(b)|
    ensures var n, bs := |Resolved(a)|, Numbered(Resolved(a + b));
      n + k < |bs| && bs[n + k] == Block(n + k + 1, Resolved(b)[k])
  {
    var ra, rb := Resolved(a), Resolved(b);
    ResolvedAppend(a, b);
    NumberedIndex(ra + rb, |ra| + k);
    assert (ra + rb)[|ra| + k] == rb[k];
  }

  /** Five segments whose third has no speaker give four blocks numbered 1
      to 4: the fourth segment is written as block 3. */
  lemma {:induction false} SkipRenumbers(s0: Segment, s1: Segment, s2: Segment, s3: Segment, s4: Segment)
    requires s0.speaker.Some? && s1.speaker.Some? && s2.speaker.None?
    requires s3.speaker.Some? && s4.speaker.Some?
    ensures Numbered(Resolved([s0, s1, s2, s3, s4]))
         == [Block(1, AsCue(s0)), Block(2, AsCue(s1)), Block(3, AsCue(s3)), Block(4, AsCue(s4))]
  {
    var front, back := [s0, s1], [s3, s4];
    assert [s0, s1, s2, s3, s4] == front + [s2] + back;
    ResolvedSkip(front, s2, back);
    var kept := front + back;
    assert kept == [s0, s1, s3, s4];
    ResolvedAll(kept);
    var cs := Resolved(kept);
    assert cs == [AsCue(s0), AsCue(s1), AsCue(s3), AsCue(s4)] by {
      assert cs[0] == AsCue(kept[0]) && cs[1] == AsCue(kept[1]);
      assert cs[2] == AsCue(kept[2]) && cs[3] == AsCue(kept[3]);
    }
    var bs := Numbered(cs);
    NumberedIndex(cs, 0);
    NumberedIndex(cs, 1);
    NumberedIndex(cs, 2);
    NumberedIndex(cs, 3);
    assert bs == [Block(1, cs[0]), Block(2, cs[1]), Block(3, cs[2]), Block(4, cs[3])];
  }
}
