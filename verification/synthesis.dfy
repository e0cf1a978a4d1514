/**
 * What each chunk is turned into before it reaches the speech service: the
 * text to speak, the voice and speaking rate (`generate_audio_for_text`),
 * the fixed audio settings, and the temporary file the audio is written to.
 * The service itself is not modelled.
 */
module Synthesis {
  import opened Wrappers
  import opened PyStr
  import opened Titles

  /** `VoiceSelectionParams` together with the `speaking_rate` chosen with it. */
  datatype Voice = Voice(languageCode: string, name: string, speakingRate: real)

  /** The voice used for titles. */
  const TitleVoice: Voice := Voice("en-US", "en-US-Wavenet-B", 1.2)

  /** The voice used for body text. */
  const BodyVoice: Voice := Voice("en-US", "en-US-Wavenet-J", 1.5)

  /** One call to the speech service: the text, the voice and rate, and the
      audio settings every call shares (MP3, tuned for headphones). */
  datatype Request = Request(text: string, voice: Voice, encoding: string, effectsProfiles: seq<string>)

  /** Lines 112-119: the voice and rate for a title or for body text. */
  function SelectVoice(isTitle: bool): (v: Voice)
    ensures v.languageCode == "en-US"
    ensures isTitle <==> v.name == "en-US-Wavenet-B"
    ensures isTitle ==> v.speakingRate == 1.2
    ensures !isTitle ==> v.speakingRate == 1.5
  {
    if isTitle then TitleVoice else BodyVoice
  }

  /** Lines 69-73 and 110-126 for one chunk: the request it is spoken with. */
  function RequestFor(chunk: string): Request {
    match TitleMatch(chunk)
    case None => Request(chunk, SelectVoice(false), "MP3", ["headphone-class-device"])
    case Some(g) =>
      var name := Strip(g);
      Request(name, SelectVoice(name != ""), "MP3", ["headphone-class-device"])
  }

  /** When the title pattern matches, the label is spoken instead of the
      chunk, and the title voice is used exactly when the label is
      non-empty; every request asks for MP3 tuned for headphones. */
  lemma RequestChoice(chunk: string)
    ensures TitleMatch(chunk).Some? ==> RequestFor(chunk).text == Label(chunk)
    ensures TitleMatch(chunk).None? ==> RequestFor(chunk).text == chunk
    ensures RequestFor(chunk).voice == TitleVoice <==> Label(chunk) != ""
    ensures RequestFor(chunk).voice == BodyVoice <==> Label(chunk) == ""
    ensures RequestFor(chunk).encoding == "MP3"
    ensures RequestFor(chunk).effectsProfiles == ["headphone-class-device"]
  {
  }

  /** The spoken text is never longer than the chunk and, when it is not the
      chunk itself, holds no `#`: a title is read without its markup. */
  lemma RequestTextShort(chunk: string)
    ensures |RequestFor(chunk).text| <= |chunk|
    ensures RequestFor(chunk).text != chunk ==> forall c :: c in RequestFor(chunk).text ==> c != '#'
  {
    LabelShape(chunk);
    if TitleMatch(chunk).Some? {
      assert RequestFor(chunk).text == Label(chunk);
    }
  }

  /** Line 64: the temporary file for the `n`-th chunk, `out_path + '.' + str(n)`. */
  function TempPath(outPath: string, n: nat): (path: string)
    ensures |path| > |outPath| + 1 && path[..|outPath| + 1] == outPath + "."
    ensures path[|outPath| + 1..] == Decimal(n)
    ensures ParseDecimal(path[|outPath| + 1..]) == n
  {
    DecimalRoundTrip(n);
    var path := outPath + "." + Decimal(n);
    assert path[|outPath| + 1..] == Decimal(n);
    path
  }

  /** Line 64 for every chunk. */
  function TempPaths(outPath: string, count: nat): (paths: seq<string>)
    ensures |paths| == count
    ensures forall n :: 0 <= n < count ==> paths[n] == TempPath(outPath, n)
  {
    seq(count, n requires 0 <= n => TempPath(outPath, n))
  }

  /** No two chunks share a temporary file. */
  lemma TempPathsDistinct(outPath: string, m: nat, n: nat)
    requires m != n
    ensures TempPath(outPath, m) != TempPath(outPath, n)
  {
    var a, b := TempPath(outPath, m), TempPath(outPath, n);
    assert ParseDecimal(a[|outPath| + 1..]) == m;
    assert ParseDecimal(b[|outPath| + 1..]) == n;
  }
}
