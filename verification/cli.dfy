/** The command-line flow of main.py: choosing the audio source, routing URLs to the
    download, the transcript preview and the name of the saved minutes file. */
module Cli {
  import opened Wrappers
  import opened Text
  import opened Download

  /** A Python value used in a truth test: present and non-empty. */
  predicate Truthy(v: Option<string>) {
    v.Some? && v.value != []
  }

  /** The audio source: the command-line argument, else the `AUDIO_SOURCE` environment value,
      else the typed answer with surrounding quote characters removed; none when that is
      empty too. */
  function ChosenSource(cliArg: Option<string>, envSource: Option<string>, typed: string): (r: Option<string>)
    ensures r.Some? ==> r.value != []
    ensures Truthy(cliArg) ==> r == cliArg
    ensures !Truthy(cliArg) && Truthy(envSource) ==> r == envSource
    ensures !Truthy(cliArg) && !Truthy(envSource) ==>
      (r.Some? <==> StripBy(typed, IsQuote) != []) && (r.Some? ==> r.value == StripBy(typed, IsQuote))
  {
    if Truthy(cliArg) then cliArg
    else if Truthy(envSource) then envSource
    else
      var answer := StripBy(typed, IsQuote);
      if answer == [] then None else Some(answer)
  }

  /** A source naming a web resource. */
  predicate IsUrl(source: string) {
    StartsWith(source, "http://") || StartsWith(source, "https://")
  }

  /** The local path of the audio: the downloaded file for a URL (none when the download
      fails), the source itself otherwise. */
  function AudioPath(source: string, fetched: bool): (r: Option<string>)
    ensures !IsUrl(source) ==> r == Some(source)
    ensures IsUrl(source) ==> (r.Some? <==> fetched) && (r.Some? ==> r.value == LocalFilename(source))
  {
    if IsUrl(source) then DownloadFile(source, fetched) else Some(source)
  }

  /** What is printed of the transcript: its first 200 characters and `...` when it is
      longer, the whole transcript otherwise. */
  function Preview(transcript: string): (r: string)
    ensures |transcript| <= 200 ==> r == transcript
    ensures |transcript| > 200 ==> |r| == 203 && r[..200] == transcript[..200] && r[200..] == "..."
  {
    if |transcript| > 200 then transcript[..200] + "..." else transcript
  }

  predicate IsDot(c: char) { c == '.' }

  /** `os.path.basename` on POSIX: the text after the last `/`. */
  function Basename(path: string): (r: string)
    ensures '/' !in r && EndsWith(path, r)
  {
    AfterLast(path, '/')
  }

  /** `os.path.splitext(name)[0]` on POSIX: `name` without its last `.` and what follows,
      unless every character before that dot is a dot (a hidden file keeps its name). */
  function Stem(name: string): (r: string)
    ensures StartsWith(name, r)
  {
    var ext := AfterLast(name, '.');
    if |ext| == |name| then name
    else
      var head := name[..|name| - |ext| - 1];
      if TrimStart(head, IsDot) == [] then name else head
  }

  /** The file the minutes are saved to: the audio file's name without its extension,
      followed by `_minutes.md`. */
  function OutputFilename(audioPath: string): (r: string)
    ensures EndsWith(r, MinutesSuffix) && '/' !in r
  {
    var name := Basename(audioPath);
    var stem := Stem(name);
    assert '/' !in stem by {
      assert stem == name[..|stem|];
    }
    MinutesSuffixPlain();
    var r := stem + MinutesSuffix;
    assert r[|r| - |MinutesSuffix|..] == MinutesSuffix;
    r
  }

  const MinutesSuffix: string := "_minutes.md"

  lemma MinutesSuffixPlain()
    ensures '/' !in MinutesSuffix
  {
  }

  /** The environment of one run: the inputs, the file system and the results of the
      services main.py calls. */
  datatype World = World(
    cliArg: Option<string>,       // the optional positional argument
    envSource: Option<string>,    // `AUDIO_SOURCE`
    typed: string,                // the answer to the prompt
    fetched: bool,                // whether a URL download succeeds
    files: set<string>,           // the paths that exist
    transcript: Option<string>,   // the transcriber's result, none when it raises
    minutes: Option<string>)      // the generated and saved minutes, none when that raises

  /** How a run ends. */
  datatype Outcome =
    | NoSource
    | DownloadFailed(url: string)
    | FileNotFound(path: string)
    | TranscriptionFailed(path: string)
    | GenerationFailed(preview: string)
    | Saved(preview: string, file: string, minutes: string)

  /** The audio path a run reaches, if any. */
  function ResolvedPath(w: World): Option<string> {
    match ChosenSource(w.cliArg, w.envSource, w.typed)
    case None => None
    case Some(source) => AudioPath(source, w.fetched)
  }

  /** The outcome of a run, step by step as main.py takes them. */
  function RunOutcome(w: World): (r: Outcome)
    ensures r.NoSource? <==> ChosenSource(w.cliArg, w.envSource, w.typed).None?
    ensures r.Saved? ==> EndsWith(r.file, MinutesSuffix) && '/' !in r.file && Some(r.minutes) == w.minutes
  {
    match ChosenSource(w.cliArg, w.envSource, w.typed)
    case None => NoSource
    case Some(source) =>
      match AudioPath(source, w.fetched)
      case None => DownloadFailed(source)
      case Some(path) =>
        if path !in w.files then FileNotFound(path)
        else
          match w.transcript
          case None => TranscriptionFailed(path)
          case Some(t) =>
            match w.minutes
            case None => GenerationFailed(Preview(t))
            case Some(m) => Saved(Preview(t), OutputFilename(path), m)
  }

  /** `main`: reassigns the source and the audio path and returns early on each failure. */
  method RunMain(w: World) returns (outcome: Outcome)
    ensures outcome == RunOutcome(w)
  {
    var audioSource := w.cliArg;
    if !Truthy(audioSource) {
      audioSource := w.envSource;
    }
    if !Truthy(audioSource) {
      audioSource := Some(StripBy(w.typed, IsQuote));
      if !Truthy(audioSource) {
        return NoSource;
      }
    }
    var source := audioSource.value;
    var audioPath: string;
    if IsUrl(source) {
      var localPath := DownloadFile(source, w.fetched);
      if !Truthy(localPath) {
        return DownloadFailed(source);
      }
      audioPath := localPath.value;
    } else {
      audioPath := source;
    }
    if audioPath !in w.files {
      return FileNotFound(audioPath);
    }
    if w.transcript.None? {
      return TranscriptionFailed(audioPath);
    }
    var preview := Preview(w.transcript.value);
    if w.minutes.None? {
      return GenerationFailed(preview);
    }
    outcome := Saved(preview, OutputFilename(audioPath), w.minutes.value);
  }

  // ---- Properties of a run ----

  /** A run stops without a source exactly when the argument, the environment value and the
      typed answer all come out empty. */
  lemma NoSourceExactly(w: World)
    ensures RunOutcome(w) == NoSource <==>
      !Truthy(w.cliArg) && !Truthy(w.envSource) && StripBy(w.typed, IsQuote) == []
  {
  }

  /** Minutes are generated and saved exactly when the audio path exists and transcription
      succeeds and generation succeeds; the file is named after the audio path. */
  lemma SavedExactly(w: World)
    ensures RunOutcome(w).Saved? <==>
      ResolvedPath(w).Some? && ResolvedPath(w).value in w.files && w.transcript.Some? && w.minutes.Some?
    ensures RunOutcome(w).Saved? ==>
      RunOutcome(w) == Saved(Preview(w.transcript.value), OutputFilename(ResolvedPath(w).value), w.minutes.value)
  {
  }

  /** Generation is attempted only after the audio file was found and transcribed. */
  lemma GenerationNeedsTranscript(w: World)
    requires RunOutcome(w).GenerationFailed? || RunOutcome(w).Saved?
    ensures ResolvedPath(w).Some? && ResolvedPath(w).value in w.files && w.transcript.Some?
  {
  }

  /** A URL source is downloaded and the run goes on with the saved file; a failed download
      ends the run. Any other source is used as the path unchanged. */
  lemma SourceRouting(w: World, source: string)
    requires ChosenSource(w.cliArg, w.envSource, w.typed) == Some(source)
    ensures IsUrl(source) && w.fetched ==> ResolvedPath(w) == Some(LocalFilename(source))
    ensures IsUrl(source) && !w.fetched ==> RunOutcome(w) == DownloadFailed(source)
    ensures !IsUrl(source) ==> ResolvedPath(w) == Some(source)
  {
  }

  /** The worlds main.py can meet: a download that succeeds has written its file
      (main.py:33-37), so the file exists when the run checks for it. */
  predicate DownloadKept(w: World) {
    match ChosenSource(w.cliArg, w.envSource, w.typed)
    case None => true
    case Some(source) => IsUrl(source) && w.fetched ==> LocalFilename(source) in w.files
  }

  /** In such a world a URL run never stops for a missing file: it ends with a failed
      download exactly when the download fails, and otherwise reaches transcription. */
  lemma DownloadedFileFound(w: World, source: string)
    requires DownloadKept(w)
    requires ChosenSource(w.cliArg, w.envSource, w.typed) == Some(source) && IsUrl(source)
    ensures !RunOutcome(w).FileNotFound?
    ensures RunOutcome(w).DownloadFailed? <==> !w.fetched
  {
  }

  // ---- Properties of the output name ----

  /** The base name of a path is its last segment. */
  lemma BasenameOf(dir: string, name: string)
    requires '/' !in name
    ensures Basename(dir + "/" + name) == name
    ensures Basename(name) == name
  {
    assert dir + "/" + name == dir + ['/'] + name;
    AfterLastAppend(dir, '/', name);
    AfterLastAbsent(name, '/');
  }

  /** `splitext` drops the text from the last dot on. */
  lemma StemDropsExtension(stem: string, ext: string)
    requires stem != [] && stem[0] != '.' && '.' !in ext
    ensures Stem(stem + "." + ext) == stem
  {
    var name := stem + "." + ext;
    assert AfterLast(name, '.') == ext && name[..|name| - |ext| - 1] == stem by {
      assert name == stem + ['.'] + ext;
      AfterLastAppend(stem, '.', ext);
    }
    assert TrimStart(stem, IsDot) != [] by {
      assert !IsDot(stem[0]);
    }
  }

  /** A leading dot alone does not start an extension. */
  lemma StemOfHidden(rest: string)
    requires '.' !in rest
    ensures Stem("." + rest) == "." + rest
  {
    var name := "." + rest;
    assert name == [] + ['.'] + rest;
    AfterLastAppend([], '.', rest);
    assert name[..|name| - |rest| - 1] == [];
  }

  /** A file name with an extension loses the extension, wherever the file lies. */
  lemma OutputFilenameDropsExtension(dir: string, stem: string, ext: string)
    requires stem != [] && stem[0] != '.' && '/' !in stem && '/' !in ext && '.' !in ext
    ensures OutputFilename(dir + "/" + stem + "." + ext) == stem + MinutesSuffix
    ensures OutputFilename(stem + "." + ext) == stem + MinutesSuffix
  {
    var name := stem + "." + ext;
    assert Stem(name) == stem by { StemDropsExtension(stem, ext); }
    assert Basename(dir + "/" + stem + "." + ext) == name && Basename(name) == name by {
      assert '/' !in name;
      assert dir + "/" + stem + "." + ext == dir + "/" + name;
      BasenameOf(dir, name);
    }
  }

  /** A name without a dot is kept whole. */
  lemma OutputFilenameWithoutExtension(dir: string, name: string)
    requires '/' !in name && '.' !in name
    ensures OutputFilename(dir + "/" + name) == name + MinutesSuffix
  {
    assert Stem(name) == name by { AfterLastAbsent(name, '.'); }
    assert Basename(dir + "/" + name) == name by { BasenameOf(dir, name); }
  }

  /** A hidden file's leading dot does not start an extension. */
  lemma OutputFilenameOfHiddenFile(dir: string, rest: string)
    requires '/' !in rest && '.' !in rest
    ensures OutputFilename(dir + "/." + rest) == "." + rest + MinutesSuffix
  {
    var name := "." + rest;
    assert Stem(name) == name by { StemOfHidden(rest); }
    assert Basename(dir + "/." + rest) == name by {
      assert '/' !in name;
      assert dir + "/." + rest == dir + "/" + name;
      BasenameOf(dir, name);
    }
  }
}
