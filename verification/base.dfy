/**
  The lower-level functions of the library: wrapping raw bytes as named
  files for the conversion engine, routing a file to a parser by its
  extension, splitting multi-track archives, and forwarding lyric
  conversion. The conversion engine itself is opaque and appears only as
  function-typed parameters.
*/
module Base {
  import opened Results
  import opened Canonical
  import JsString
  import Archive
  import opened Parsers

  // =====================================================================
  // Files handed to the engine
  // =====================================================================

  datatype File = File(name: string, content: Bytes)

  /** What a parse function accepts: raw bytes or an already named file. */
  datatype Input = Raw(bytes: Bytes) | Given(file: File)

  function InputContent(data: Input): Bytes {
    match data
    case Raw(bytes) => bytes
    case Given(file) => file.content
  }

  /** `data instanceof File ? data : new File([data], `data.${ext}`)` */
  function SingleParseFile(data: Input, ext: string): (f: File)
    ensures f.content == InputContent(data)
    ensures data.Given? ==> f == data.file
  {
    match data
    case Raw(bytes) => File("data." + ext, bytes)
    case Given(file) => file
  }

  /** The `i`-th file of a multi-file parse: raw bytes become `data_${i}.${ext}`. */
  function MultiParseFile(data: Input, i: nat, ext: string): (f: File)
    ensures f.content == InputContent(data)
    ensures data.Given? ==> f == data.file
  {
    match data
    case Raw(bytes) => File("data_" + JsString.NatToString(i) + "." + ext, bytes)
    case Given(file) => file
  }

  /** `data.map((d, i) => …)` in `createMultiParse`: one file per argument, in order. */
  function MultiParseFiles(data: seq<Input>, ext: string): (files: seq<File>)
    ensures |files| == |data|
    ensures forall i :: 0 <= i < |data| ==> files[i] == MultiParseFile(data[i], i, ext)
  {
    seq(|data|, i requires 0 <= i < |data| => MultiParseFile(data[i], i, ext))
  }

  /** A multi-file parse of one raw argument names it `data_0.<ext>`. */
  lemma MultiParseOfOne(data: Input, ext: string)
    ensures data.Raw? ==> MultiParseFiles([data], ext) == [File("data_0." + ext, data.bytes)]
    ensures data.Given? ==> MultiParseFiles([data], ext) == [data.file]
  {
    var files := MultiParseFiles([data], ext);
    assert files == [files[0]];
    assert JsString.NatToString(0) == "0";
    if data.Raw? {
      assert files[0].name == "data_" + "0" + "." + ext;
      assert "data_" + "0" + "." + ext == "data_0." + ext;
    }
  }

  /** Raw arguments of a multi-file parse get pairwise distinct file names. */
  lemma MultiParseNamesDistinct(data: seq<Input>, ext: string, i: nat, j: nat)
    requires i < j < |data| && data[i].Raw? && data[j].Raw?
    ensures MultiParseFiles(data, ext)[i].name != MultiParseFiles(data, ext)[j].name
  {
    var n := JsString.NatToString(i);
    var m := JsString.NatToString(j);
    var a := "data_" + n + "." + ext;
    var b := "data_" + m + "." + ext;
    if a == b {
      assert |n| == |m|;
      assert n == a[5..5 + |n|] && m == b[5..5 + |m|];
      JsString.NatToStringInjective(i, j);
    }
  }

  // =====================================================================
  // The engine as seen from this layer
  // =====================================================================

  /** Errors the engine raises (they reach the caller unchanged). */
  datatype EngineError =
    | CannotReadFile
    | IllegalFile
    | IllegalNotePosition
    | NotesOverlapping
    | EmptyProject
    | UnsupportedFileFormat
    | UnsupportedLegacyPpsf

  /** The engine's parsers followed by its conversion to canonical data. */
  type ParseEngine = (Parser, seq<File>) -> Result<UfData, EngineError>

  /**
    Calling parse function `p` with one argument: the UST parser wraps it
    as `data_0.ust`, every other parser as `data.<ext>`.
  */
  function Parse(p: Parser, data: Input, engine: ParseEngine): (r: Result<UfData, EngineError>)
    ensures data.Given? ==> r == engine(p, [data.file])
    ensures data.Raw? && p == Ust ==> r == engine(Ust, [File("data_0.ust", data.bytes)])
    ensures data.Raw? && p != Ust ==> r == engine(p, [File("data." + ParserExtension(p), data.bytes)])
  {
    if p == Ust then
      UstFilesOfOne(data);
      engine(p, MultiParseFiles([data], ParserExtension(p)))
    else engine(p, [SingleParseFile(data, ParserExtension(p))])
  }

  /** One argument of the UST parse: raw bytes become `data_0.ust`, a file passes through. */
  lemma UstFilesOfOne(data: Input)
    ensures data.Raw? ==> MultiParseFiles([data], "ust") == [File("data_0.ust", data.bytes)]
    ensures data.Given? ==> MultiParseFiles([data], "ust") == [data.file]
  {
    MultiParseOfOne(data, "ust");
    assert "data_0." + "ust" == "data_0.ust";
  }

  /**
    `parseUst(...data)`: every argument becomes one file of a multi-file
    parse. A single argument is the one-argument call of the dispatch
    table, and arguments that are all files reach the engine unchanged.
  */
  function ParseUst(data: seq<Input>, engine: ParseEngine): (r: Result<UfData, EngineError>)
    ensures |data| == 1 ==> r == Parse(Ust, data[0], engine)
    ensures (forall i :: 0 <= i < |data| ==> data[i].Given?) ==>
              r == engine(Ust, seq(|data|, i requires 0 <= i < |data| => data[i].file))
  {
    var files := MultiParseFiles(data, "ust");
    assert |data| == 1 ==> data == [data[0]];
    assert (forall i :: 0 <= i < |data| ==> data[i].Given?) ==>
             files == seq(|data|, i requires 0 <= i < |data| => data[i].file);
    engine(Ust, files)
  }

  // =====================================================================
  // parseAny
  // =====================================================================

  datatype ParseError =
    | NoFileExtension
    | UnsupportedFileExtension(ext: string)
    | EngineFailure(cause: EngineError)

  /** The message of the two errors `parseAny` raises itself. */
  function ErrorMessage(e: ParseError): string
    requires !e.EngineFailure?
  {
    match e
    case NoFileExtension => "No file extension"
    case UnsupportedFileExtension(ext) => "Unsupported file extension: " + ext
  }

  /**
    `name.split(".").pop()?.toLowerCase()`: lower-case, free of dots, empty
    exactly when the name is empty or ends in a dot, and the whole name
    when it has no dot.
  */
  function Extension(name: string): (e: string)
    ensures '.' !in e
    ensures forall i :: 0 <= i < |e| ==> !('A' <= e[i] <= 'Z')
    ensures e == "" <==> |name| == 0 || name[|name| - 1] == '.'
    ensures '.' !in name ==> e == JsString.ToLowerCase(name)
  {
    var t := JsString.LastToken(name, '.');
    assert '.' !in name ==> t == name by {
      if '.' !in name {
        assert JsString.IsLastToken(name, '.', name);
        JsString.LastTokenUnique(name, '.', name, t);
      }
    }
    JsString.ToLowerCaseIdempotent(t);
    JsString.ToLowerCase(t)
  }

  /** An engine error surfaces unchanged as the parse error. */
  function LiftEngine(r: Result<UfData, EngineError>): Result<UfData, ParseError> {
    match r
    case Ok(data) => Ok(data)
    case Err(e) => Err(EngineFailure(e))
  }

  /**
    Parse a file by its extension. The extension is empty exactly when the
    name is empty or ends in `.`; an unknown extension is rejected; a known
    one hands the file's bytes to its parse function.
  */
  function ParseAny(file: File, engine: ParseEngine): (r: Result<UfData, ParseError>)
    ensures r == Err(NoFileExtension) <==> |file.name| == 0 || file.name[|file.name| - 1] == '.'
    ensures (r.Err? && r.error.UnsupportedFileExtension?)
            <==> Extension(file.name) != "" && Extension(file.name) !in SupportedExtensions
    ensures r.Err? && r.error.UnsupportedFileExtension? ==> r.error.ext == Extension(file.name)
    ensures ParserFor(Extension(file.name)).Some? ==>
              r == LiftEngine(Parse(ParserFor(Extension(file.name)).value, Raw(file.content), engine))
  {
    var ext := Extension(file.name);
    JsString.ToLowerCaseIdempotent(JsString.LastToken(file.name, '.'));
    if ext == "" then Err(NoFileExtension)
    else
      match ParserFor(ext)
      case None => Err(UnsupportedFileExtension(ext))
      case Some(p) => LiftEngine(Parse(p, Raw(file.content), engine))
  }

  /** The extension of `prefix.ext` is `ext` lower-cased, whatever the prefix holds. */
  lemma ExtensionOfDottedName(prefix: string, ext: string)
    requires '.' !in ext
    ensures Extension(prefix + "." + ext) == JsString.ToLowerCase(ext)
  {
    var s := prefix + "." + ext;
    assert JsString.IsLastToken(s, '.', ext) by {
      assert s[|s| - |ext|..] == ext;
      assert s[|s| - |ext| - 1] == '.';
    }
    JsString.LastTokenUnique(s, '.', ext, JsString.LastToken(s, '.'));
  }

  /** An extension already in lower case is kept as it is. */
  lemma ExtensionOfLowerDottedName(prefix: string, ext: string)
    requires '.' !in ext
    requires forall i :: 0 <= i < |ext| ==> !('A' <= ext[i] <= 'Z')
    ensures Extension(prefix + "." + ext) == ext
  {
    ExtensionOfDottedName(prefix, ext);
    assert JsString.ToLowerCase(ext) == ext;
  }

  /** The extension ignores letter case: `X.UST` is a `ust` file. */
  lemma ExtensionOfUpperUst(prefix: string)
    ensures Extension(prefix + ".UST") == "ust"
  {
    ExtensionOfDottedName(prefix, "UST");
    assert prefix + "." + "UST" == prefix + ".UST";
    assert JsString.ToLowerCase("UST") == "ust";
  }

  /** A `ust` file reaches the UST parser as the single file `data_0.ust`. */
  lemma ParseAnyOfUstName(name: string, content: Bytes, engine: ParseEngine)
    requires Extension(name) == "ust"
    ensures ParseAny(File(name, content), engine) == LiftEngine(engine(Ust, [File("data_0.ust", content)]))
  {
    ParseFunctionsRouteBack(Ust);
  }

  /**
    Re-dispatching a file a single-file parser wrapped reaches that same
    parser, for every parser except the Vocaloid MIDI one (whose `mid`
    belongs to Standard MIDI) and the UST one (which names its file
    `data_0.ust`).
  */
  lemma ParseAnyOfWrappedFile(p: Parser, bytes: Bytes, engine: ParseEngine)
    requires p != VocaloidMid && p != Ust
    ensures ParseAny(SingleParseFile(Raw(bytes), ParserExtension(p)), engine)
            == LiftEngine(Parse(p, Raw(bytes), engine))
  {
    var file := SingleParseFile(Raw(bytes), ParserExtension(p));
    assert file.name == "data" + "." + ParserExtension(p);
    ExtensionOfLowerDottedName("data", ParserExtension(p));
    ParseFunctionsRouteBack(p);
    assert ParserFor(Extension(file.name)) == Some(p);
  }

  // =====================================================================
  // Generation and the archive track-splitter
  // =====================================================================

  /** The engine's single-file generators. */
  datatype FileGenerator =
    | GenerateCcs | GenerateDv | GenerateS5p | GenerateStandardMid | GenerateSvp
    | GenerateUstx | GenerateVocaloidMid | GenerateVpr | GenerateVsq | GenerateVsqx

  /** The engine's generators that export one file per track inside a zip archive. */
  datatype ArchiveGenerator = GenerateUstZip | GenerateMusicXmlZip

  /** Generation of one file: the exported bytes. */
  type GenerateEngine = (FileGenerator, UfData) -> Result<Bytes, EngineError>

  /** Generation of an archive, already decompressed into its members. */
  type ArchiveEngine = (ArchiveGenerator, UfData) -> Result<seq<Archive.Entry>, EngineError>

  /** `{project name}_{track id}_{track name}.{ext}`, the engine's name for a track's file. */
  function TrackFileName(projectName: string, index: nat, trackName: string, ext: string): string {
    projectName + "_" + JsString.NatToString(index) + "_" + trackName + "." + ext
  }

  /**
    The track key of an archive member: delete the first occurrence of
    `projectName + "_"`, split on `_`, and read the first token with
    `parseInt(…, 10)`.
  */
  function TrackKey(projectName: string, entryName: string): (r: Option<int>)
    ensures |entryName| == 0 ==> r.None?
  {
    var rest := JsString.RemoveFirst(entryName, projectName + "_");
    assert |entryName| == 0 ==> JsString.Split(rest, '_')[0] == "" by {
      if |entryName| == 0 {
        assert !JsString.OccursAt(entryName, projectName + "_", 0);
      }
    }
    JsString.ParseInt(JsString.Split(rest, '_')[0], JsString.Ten)
  }

  /** A member name without `_` is read whole, whatever the project is called. */
  lemma TrackKeyOfPlainName(projectName: string, entryName: string)
    requires '_' !in entryName
    ensures TrackKey(projectName, entryName) == JsString.ParseInt(entryName, JsString.Ten)
  {
    var pat := projectName + "_";
    assert pat[|projectName|] == '_';
    JsString.FoundPatternChars(entryName, pat, '_');
  }

  /** The key of a member named by the engine's convention is its track index, for any project and track name. */
  lemma TrackKeyOfTrackFileName(projectName: string, index: nat, trackName: string, ext: string)
    ensures TrackKey(projectName, TrackFileName(projectName, index, trackName, ext)) == Some(index)
  {
    var digits := JsString.NatToString(index);
    var tail := trackName + "." + ext;
    var rest := digits + "_" + tail;
    var name := TrackFileName(projectName, index, trackName, ext);
    assert name == (projectName + "_") + rest;
    assert JsString.RemoveFirst(name, projectName + "_") == rest by {
      JsString.RemoveFirstOfPrefix(projectName + "_", rest);
    }
    assert JsString.Split(rest, '_')[0] == digits by {
      JsString.NatToStringExcludes(index, '_');
      JsString.SplitAtFirst(digits, '_', tail);
    }
    assert JsString.ParseInt(digits, JsString.Ten) == Some(index) by {
      JsString.ParseIntOfNatToString(index);
    }
  }

  /** The key reader `createUnzip` builds for a project. */
  function KeyReader(projectName: string): string -> Option<int> {
    name => TrackKey(projectName, name)
  }

  /** Every member name yields a track key. */
  predicate AllTrackKeyed(projectName: string, entries: seq<Archive.Entry>) {
    forall i :: 0 <= i < |entries| ==> TrackKey(projectName, entries[i].name).Some?
  }

  /**
    `createUnzip` after decompression: one payload per member, a
    permutation of the members' payloads, in stable ascending key order.
  */
  function SplitTracks(projectName: string, entries: seq<Archive.Entry>): (r: seq<Bytes>)
    requires AllTrackKeyed(projectName, entries)
    ensures |r| == |entries|
    ensures multiset(r) == multiset(Archive.Contents(entries))
  {
    Archive.SplitByKey(entries, KeyReader(projectName))
  }

  /** The payloads come out by non-decreasing track key; equal keys keep enumeration order. */
  lemma SplitTracksOrdered(projectName: string, entries: seq<Archive.Entry>)
    requires AllTrackKeyed(projectName, entries)
    ensures var key := KeyReader(projectName);
            Archive.AllKeyed(entries, key) &&
            var sorted := Archive.StableSort.Sort(Archive.Keyed(entries, key));
            && SplitTracks(projectName, entries) == Archive.StableSort.Values(sorted)
            && Archive.StableSort.SortedByKey(sorted)
            && forall k :: Archive.StableSort.WithKey(sorted, k) == Archive.StableSort.WithKey(Archive.Keyed(entries, key), k)
  {
    Archive.SplitByKeyOrdered(entries, KeyReader(projectName));
  }

  /**
    If the members are named by the engine's convention with track indices
    forming a permutation of 0, 1, …, n-1, output `i` is the payload of
    track `i`, whatever order the archive lists its members in.
  */
  lemma SplitTracksInTrackOrder(
    projectName: string, entries: seq<Archive.Entry>, index: seq<nat>, trackNames: seq<string>, ext: string)
    requires |index| == |entries| == |trackNames|
    requires forall j :: 0 <= j < |entries| ==>
               entries[j].name == TrackFileName(projectName, index[j], trackNames[j], ext)
    requires forall j :: 0 <= j < |index| ==> index[j] < |index|
    requires forall j, l :: 0 <= j < l < |index| ==> index[j] != index[l]
    ensures AllTrackKeyed(projectName, entries)
    ensures forall j :: 0 <= j < |entries| ==> SplitTracks(projectName, entries)[index[j]] == entries[j].content
  {
    forall j | 0 <= j < |entries|
      ensures TrackKey(projectName, entries[j].name) == Some(index[j])
    {
      TrackKeyOfTrackFileName(projectName, index[j], trackNames[j], ext);
    }
    Archive.SplitByKeyInIndexOrder(entries, KeyReader(projectName), index);
  }

  /** Note numbers of a ten-track project, one rising scale step per track (C4 to E5). */
  const TenTrackNoteNumbers: seq<bv8> := [60, 62, 64, 65, 67, 69, 71, 72, 74, 76]

  /**
    Ten tracks listed by the archive in reverse, each payload carrying its
    track's note number: the split returns the note numbers in track order.
  */
  lemma TenTracksComeOutInOrder(projectName: string)
    ensures var entries := seq(10, j requires 0 <= j < 10 =>
              Archive.Entry(TrackFileName(projectName, 9 - j, "Track", "ust"), [TenTrackNoteNumbers[9 - j]]));
            && AllTrackKeyed(projectName, entries)
            && |SplitTracks(projectName, entries)| == 10
            && forall i :: 0 <= i < 10 ==> SplitTracks(projectName, entries)[i] == [TenTrackNoteNumbers[i]]
  {
    var entries := seq(10, j requires 0 <= j < 10 =>
      Archive.Entry(TrackFileName(projectName, 9 - j, "Track", "ust"), [TenTrackNoteNumbers[9 - j]]));
    var index := seq(10, j requires 0 <= j < 10 => 9 - j);
    var names := seq(10, j requires 0 <= j < 10 => "Track");
    SplitTracksInTrackOrder(projectName, entries, index, names, "ust");
    forall i | 0 <= i < 10
      ensures SplitTracks(projectName, entries)[i] == [TenTrackNoteNumbers[i]]
    {
      assert index[9 - i] == i;
    }
  }

  /** `generateX(data)` for a single-file format. */
  function Generate(g: FileGenerator, data: UfData, engine: GenerateEngine): Result<Bytes, EngineError> {
    engine(g, data)
  }

  /**
    `generateUst` / `generateMusicXml`: generate the archive, then split it
    by the keys read against the project's own name.
  */
  function GenerateSplit(g: ArchiveGenerator, data: UfData, engine: ArchiveEngine): (r: Result<seq<Bytes>, EngineError>)
    requires engine(g, data).Ok? ==> AllTrackKeyed(data.project.name, engine(g, data).value)
    ensures engine(g, data).Err? ==> r == Err(engine(g, data).error)
    ensures engine(g, data).Ok? ==> r == Ok(SplitTracks(data.project.name, engine(g, data).value))
    ensures engine(g, data).Ok? ==> multiset(r.value) == multiset(Archive.Contents(engine(g, data).value))
  {
    match engine(g, data)
    case Err(e) => Err(e)
    case Ok(entries) => Ok(SplitTracks(data.project.name, entries))
  }

  // =====================================================================
  // Japanese lyrics
  // =====================================================================

  datatype JapaneseLyricsType = Unknown | KanaCv | KanaVcv | RomajiCv | RomajiVcv

  /** `Partial<ConvertJapaneseLyricsOptions>`: the field may be absent. */
  datatype ConvertJapaneseLyricsOptions = ConvertJapaneseLyricsOptions(convertVowelConnections: Option<bool>)

  /** The engine's lyric converter, taking the resolved vowel-connection flag. */
  type LyricsConverter = (UfData, JapaneseLyricsType, JapaneseLyricsType, bool) -> UfData

  /** The engine's lyric-notation classifier. */
  type LyricsAnalyzer = UfData -> JapaneseLyricsType

  /** `const { convertVowelConnections = true } = options ?? {}` */
  function ConvertVowelConnections(options: Option<ConvertJapaneseLyricsOptions>): (flag: bool)
    ensures !flag <==> options == Some(ConvertJapaneseLyricsOptions(Some(false)))
  {
    match options
    case None => true
    case Some(o) =>
      match o.convertVowelConnections
      case None => true
      case Some(b) => b
  }

  /**
    Forward to the engine's converter: both lyric types unchanged, vowel
    connections converted unless the caller explicitly said `false`.
  */
  function ConvertJapaneseLyrics(
    data: UfData, fromType: JapaneseLyricsType, targetType: JapaneseLyricsType,
    options: Option<ConvertJapaneseLyricsOptions>, convert: LyricsConverter): (r: UfData)
    ensures r == convert(data, fromType, targetType, options != Some(ConvertJapaneseLyricsOptions(Some(false))))
  {
    convert(data, fromType, targetType, ConvertVowelConnections(options))
  }

  function AnalyzeJapaneseLyricsType(data: UfData, analyze: LyricsAnalyzer): JapaneseLyricsType {
    analyze(data)
  }
}
