/** The decisions `transcribe` (app/transcribers/whisperx.py) makes around
    the whisperx calls: which device and precision to load the model with,
    and which of the two transcript files to write for the segments that
    come back. */
module Transcribe {
  import opened Wrappers
  import opened Segments
  import opened Runs
  import opened Paragraphs
  import opened CueFile
  import opened App

  datatype Device = Cuda | Cpu

  /** The keyword arguments of `whisperx.load_model` besides the model id:
      the device, `compute_type`, and `language`, which is passed only in
      English-only mode. */
  datatype LoadOptions = LoadOptions(device: Device, computeType: string, language: Option<string>)

  /** The free GPU memory, in GiB, needed to run on CUDA. */
  const MinFreeGiB: real := 5.0

  /** `1024 ** 3` bytes. */
  const GiB: nat := 1073741824

  /** Line 60: the free byte count reported for the GPU, in GiB. */
  function FreeGiB(freeBytes: nat): real
  {
    freeBytes as real / GiB as real
  }

  /** The 5 GiB threshold is exactly 5 * 2^30 free bytes. */
  lemma {:induction false} FreeThreshold(freeBytes: nat)
    ensures FreeGiB(freeBytes) >= MinFreeGiB <==> freeBytes >= 5 * GiB
  {
    var g := GiB as real;
    assert FreeGiB(freeBytes) * g == freeBytes as real;
  }

  /** Lines 63-76: CUDA with half precision when a GPU is available with at
      least 5 GiB free, the CPU with 8-bit integers otherwise; English is
      requested exactly when `eo` is `'yes'`. */
  function SelectDevice(cudaAvailable: bool, freeGiB: real, eo: string): (o: LoadOptions)
    ensures o.device == Cuda <==> cudaAvailable && freeGiB >= MinFreeGiB
    ensures o.computeType == "float16" <==> o.device == Cuda
    ensures o.computeType == "int8" <==> o.device == Cpu
    ensures o.language.Some? <==> eo == "yes"
    ensures o.language.Some? ==> o.language.value == "en"
  {
    if cudaAvailable && freeGiB >= MinFreeGiB then
      if eo == "yes" then LoadOptions(Cuda, "float16", Some("en"))
      else LoadOptions(Cuda, "float16", None)
    else
      if eo == "yes" then LoadOptions(Cpu, "int8", Some("en"))
      else LoadOptions(Cpu, "int8", None)
  }

  /** The device and precision do not depend on the English-only flag, and
      the language does not depend on the hardware. */
  lemma {:induction false} DeviceIndependentOfLanguage(cudaAvailable: bool, freeGiB: real, cuda2: bool, free2: real, eo: string, eo2: string)
    ensures SelectDevice(cudaAvailable, freeGiB, eo).device == SelectDevice(cudaAvailable, freeGiB, eo2).device
    ensures SelectDevice(cudaAvailable, freeGiB, eo).computeType == SelectDevice(cudaAvailable, freeGiB, eo2).computeType
    ensures SelectDevice(cudaAvailable, freeGiB, eo).language == SelectDevice(cuda2, free2, eo).language
  {
    var a, b := SelectDevice(cudaAvailable, freeGiB, eo), SelectDevice(cudaAvailable, freeGiB, eo2);
    assert a.device == b.device;
    assert a.computeType == b.computeType;
  }

  /** From the app, which fixes `eo` to `'yes'`, the model is always loaded
      for English. */
  lemma {:induction false} AppLanguage(cudaAvailable: bool, freeGiB: real)
    ensures SelectDevice(cudaAvailable, freeGiB, EnglishOnly).language == Some("en")
  {
    var o := SelectDevice(cudaAvailable, freeGiB, EnglishOnly);
    assert o.language.Some?;
  }

  /** The `par` value that selects the paragraph file, spelled as in the
      comparison at line 113. */
  const ParagraphMode: string := "paragaph"

  /** Lines 115 and 126: the transcript is written next to the audio file,
      with `.txt` appended for the paragraph file and `.vtt` otherwise. */
  function OutputPath(audioPath: string, par: string): (p: string)
    ensures |p| == |audioPath| + 4 && p[..|audioPath|] == audioPath
    ensures p[|audioPath|..] == ".txt" <==> par == ParagraphMode
    ensures p[|audioPath|..] == ".vtt" <==> par != ParagraphMode
  {
    var p := audioPath + (if par == ParagraphMode then ".txt" else ".vtt");
    assert p[|audioPath|..] == (if par == ParagraphMode then ".txt" else ".vtt");
    assert ".txt"[1] != ".vtt"[1];
    p
  }

  /** The file `transcribe` leaves behind: its path and its text. */
  datatype Output = Output(path: string, text: string)

  /** Lines 113-133 with the cue counter initialised: the paragraph file
      when `par` is `'paragaph'` (no file at all when `convert_segs_par`
      raises), the WebVTT file otherwise, holding every write of the cue
      loop in order. */
  function RenderSpec(audioPath: string, par: string, segs: seq<Segment>): (r: Option<Output>)
    ensures r.None? <==> par == ParagraphMode && (segs == [] || segs[0].speaker.None?)
    ensures r.Some? ==> r.value.path == OutputPath(audioPath, par)
  {
    if par == ParagraphMode then
      match ParagraphSpec(segs)
      case None => None
      case Some(g) => Some(Output(audioPath + ".txt", ParagraphFile(g.output)))
    else Some(Output(audioPath + ".vtt", Concat(CueWrites(Resolved(segs)))))
  }

  /** The dispatch of lines 113-133, calling the two loops. */
  method Render(audioPath: string, par: string, segs: seq<Segment>) returns (r: Option<Output>)
    ensures r == RenderSpec(audioPath, par, segs)
  {
    if par == ParagraphMode {
      var g := ConvertSegsPar(segs);
      if g.None? {
        return None;
      }
      var text := WriteParagraphs(g.value);
      r := Some(Output(audioPath + ".txt", text));
    } else {
      var writes := WriteCues(segs);
      r := Some(Output(audioPath + ".vtt", Concat(writes)));
    }
  }

  /** The output radio of the app offers `'VTT'` and `'paragraph'`, neither
      of which is `'paragaph'`: from the app the paragraph file is never
      written, and every run produces the WebVTT file. */
  lemma {:induction false} AppAlwaysWritesCues(audioPath: string, par: string, segs: seq<Segment>)
    requires par in OutputChoices
    ensures RenderSpec(audioPath, par, segs) == Some(Output(audioPath + ".vtt", Concat(CueWrites(Resolved(segs)))))
  {
    assert par == "VTT" || par == "paragraph";
    assert |"paragraph"| != |ParagraphMode|;
    assert par != ParagraphMode;
  }
}
