/**
  The high-level `Project` facade: a value wrapping canonical project data,
  with getters, lyric conversion (optionally detecting the source notation),
  construction from files, and export through the lower-level functions.
*/
module ProjectFacade {
  import opened Results
  import opened Canonical
  import opened Parsers
  import JsString
  import Archive
  import Base

  /** A project holds its canonical data and nothing else. */
  datatype Project = Project(data: UfData)

  /**
    `toUfDataObject`: a deep copy of the data. Values here are immutable,
    so the copy is equal to the data, and wrapping it again gives back an
    equal project.
  */
  function ToUfDataObject(p: Project): (d: UfData)
    ensures Project(d) == p
  {
    p.data
  }

  function MeasurePrefix(p: Project): int {
    p.data.project.measurePrefix
  }

  function Name(p: Project): string {
    p.data.project.name
  }

  function Tempos(p: Project): seq<Tempo> {
    p.data.project.tempos
  }

  function TimeSignatures(p: Project): seq<TimeSignature> {
    p.data.project.timeSignatures
  }

  function Tracks(p: Project): seq<Track> {
    p.data.project.tracks
  }

  /** The five getters together expose the whole project part of the data. */
  lemma GettersReassemble(p: Project)
    ensures ProjectData(Name(p), Tracks(p), TimeSignatures(p), Tempos(p), MeasurePrefix(p)) == p.data.project
    ensures UfData(p.data.formatVersion, ProjectData(Name(p), Tracks(p), TimeSignatures(p), Tempos(p), MeasurePrefix(p)))
            == ToUfDataObject(p)
  {
  }

  // =====================================================================
  // Japanese lyrics
  // =====================================================================

  /** The notation a conversion starts from: detected, or given by the caller. */
  datatype LyricsTypeChoice = Auto | Given(lyricsType: Base.JapaneseLyricsType)

  function AnalyzeJapaneseLyricsType(p: Project, analyze: Base.LyricsAnalyzer): Base.JapaneseLyricsType {
    Base.AnalyzeJapaneseLyricsType(p.data, analyze)
  }

  /**
    Convert the lyrics into a new project: `Auto` asks the analyzer for the
    current notation, any other choice is passed on unchanged, and vowel
    connections are converted unless the options explicitly say `false`.
  */
  function ConvertJapaneseLyrics(
    p: Project, fromType: LyricsTypeChoice, targetType: Base.JapaneseLyricsType,
    options: Option<Base.ConvertJapaneseLyricsOptions>,
    analyze: Base.LyricsAnalyzer, convert: Base.LyricsConverter): (r: Project)
    ensures fromType.Given? ==>
              r.data == convert(p.data, fromType.lyricsType, targetType,
                                options != Some(Base.ConvertJapaneseLyricsOptions(Some(false))))
    ensures fromType.Auto? ==>
              r.data == convert(p.data, analyze(p.data), targetType,
                                options != Some(Base.ConvertJapaneseLyricsOptions(Some(false))))
  {
    var resolved := if fromType.Auto? then AnalyzeJapaneseLyricsType(p, analyze) else fromType.lyricsType;
    Project(Base.ConvertJapaneseLyrics(p.data, resolved, targetType, options, convert))
  }

  /** Asking for detection is the same as passing the detected notation explicitly. */
  lemma AutoIsDetectedType(
    p: Project, targetType: Base.JapaneseLyricsType, options: Option<Base.ConvertJapaneseLyricsOptions>,
    analyze: Base.LyricsAnalyzer, convert: Base.LyricsConverter)
    ensures ConvertJapaneseLyrics(p, Auto, targetType, options, analyze, convert)
            == ConvertJapaneseLyrics(p, Given(AnalyzeJapaneseLyricsType(p, analyze)), targetType, options, analyze, convert)
  {
  }

  /**
    Omitting the options, omitting the field, and passing `true` all
    convert vowel connections; only an explicit `false` turns it off.
  */
  lemma VowelConnectionsDefaultOn(
    p: Project, fromType: LyricsTypeChoice, targetType: Base.JapaneseLyricsType,
    analyze: Base.LyricsAnalyzer, convert: Base.LyricsConverter)
    ensures ConvertJapaneseLyrics(p, fromType, targetType, None, analyze, convert)
            == ConvertJapaneseLyrics(p, fromType, targetType, Some(Base.ConvertJapaneseLyricsOptions(None)), analyze, convert)
            == ConvertJapaneseLyrics(p, fromType, targetType, Some(Base.ConvertJapaneseLyricsOptions(Some(true))), analyze, convert)
  {
  }

  // =====================================================================
  // Parsing
  // =====================================================================

  /** `fromX(data)` for a single-file parser: the parse result, wrapped. */
  function From(parser: Parser, data: Base.Input, engine: Base.ParseEngine): (r: Result<Project, Base.EngineError>)
    requires parser != Ust
    ensures r.Ok? <==> engine(parser, [Base.SingleParseFile(data, ParserExtension(parser))]).Ok?
    ensures r.Ok? ==> ToUfDataObject(r.value) == engine(parser, [Base.SingleParseFile(data, ParserExtension(parser))]).value
    ensures r.Err? ==> r.error == engine(parser, [Base.SingleParseFile(data, ParserExtension(parser))]).error
  {
    Wrap(Base.Parse(parser, data, engine))
  }

  /** `fromUst` accepts one input or an array of them. */
  datatype UstInput = One(input: Base.Input) | Many(inputs: seq<Base.Input>)

  /** The inputs `fromUst` was given, one per file they are meant to become. */
  function Spread(data: UstInput): (inputs: seq<Base.Input>)
    ensures data.One? ==> inputs == [data.input]
    ensures data.Many? ==> inputs == data.inputs
  {
    match data
    case One(input) => [input]
    case Many(inputs) => inputs
  }

  /** `Partial<ParseParams>`: an options object, whose fields are not modelled. */
  datatype ParseParams = ParseParams

  /**
    A value in the rest list of `parseUst`: an input, an array of inputs
    (the array object itself), the options object, or `undefined`.
  */
  datatype RestArg = Value(input: Base.Input) | InputArray(inputs: seq<Base.Input>) | Options | Undefined

  /** The rest list `parseUst(data, params)` receives: always two values. */
  function RestList(data: UstInput, params: Option<ParseParams>): (rest: seq<RestArg>)
    ensures |rest| == 2
    ensures data.One? <==> rest[0].Value?
    ensures rest[1].Options? <==> params.Some?
    ensures rest[1].Undefined? <==> params.None?
  {
    [if data.One? then Value(data.input) else InputArray(data.inputs),
     if params.Some? then Options else Undefined]
  }

  /**
    `String(v)` for a value that is neither bytes nor a file: an array
    joins its elements' strings with `,` (a byte array being itself the
    decimal values of its bytes joined with `,`), an object is
    `[object Object]` and `undefined` is `undefined`.
  */
  function RestArgText(a: RestArg): string
    requires !a.Value?
  {
    match a
    case InputArray(inputs) =>
      JsString.Join(seq(|inputs|, i requires 0 <= i < |inputs| => ElementText(inputs[i])), ',')
    case Options => "[object Object]"
    case Undefined => "undefined"
  }

  /** `String(params)`: the options object, or `undefined` when it was omitted. */
  function ParamsText(params: Option<ParseParams>): string {
    RestArgText(if params.Some? then Options else Undefined)
  }

  /** `String(x)` for an array element: the bytes' decimal values joined with `,`, or `[object File]`. */
  function ElementText(x: Base.Input): string {
    match x
    case Raw(bytes) => JsString.Join(seq(|bytes|, i requires 0 <= i < |bytes| => JsString.NatToString(bytes[i] as nat)), ',')
    case Given(_) => "[object File]"
  }

  /**
    `d instanceof File ? d : new File([d], `data_${i}.ust`)` for any value
    of the rest list: an input becomes the file a multi-file parse makes of
    it; any other value becomes a file holding the UTF-8 of its string.
  */
  function RestFile(a: RestArg, i: nat): (f: Base.File)
    ensures a.Value? ==> f == Base.MultiParseFile(a.input, i, "ust")
    ensures !a.Value? ==> f.content == JsString.Utf8(RestArgText(a))
    ensures !a.Value? || a.input.Raw? ==> f.name == "data_" + JsString.NatToString(i) + ".ust"
  {
    match a
    case Value(input) => Base.MultiParseFile(input, i, "ust")
    case _ => Base.File("data_" + JsString.NatToString(i) + ".ust", JsString.Utf8(RestArgText(a)))
  }

  /**
    `fromUst(data, params)` as written: it calls `base.parseUst(data,
    params)`, and `parseUst` gathers its arguments in a rest list, so the
    engine is always handed exactly two files. The first comes from
    `data`: a single input as the multi-file parse wraps it, an array as
    ONE file holding the array's text. The second, `data_1.ust`, holds the
    text of `params`, `undefined` when it was omitted.
  */
  function FromUst(data: UstInput, params: Option<ParseParams>, engine: Base.ParseEngine): (r: Result<Project, Base.EngineError>)
    ensures var second := Base.File("data_1.ust", JsString.Utf8(ParamsText(params)));
            && (data.One? && data.input.Raw? ==>
                  r == Wrap(engine(Ust, [Base.File("data_0.ust", data.input.bytes), second])))
            && (data.One? && data.input.Given? ==>
                  r == Wrap(engine(Ust, [data.input.file, second])))
            && (data.Many? ==>
                  r == Wrap(engine(Ust, [Base.File("data_0.ust", JsString.Utf8(RestArgText(InputArray(data.inputs)))), second])))
  {
    var rest := RestList(data, params);
    FirstRestFile(data, params);
    SecondRestFile(data, params);
    RestFilesOfPair(rest);
    Wrap(engine(Ust, RestFiles(rest)))
  }

  lemma RestFilesOfPair(rest: seq<RestArg>)
    requires |rest| == 2
    ensures RestFiles(rest) == [RestFile(rest[0], 0), RestFile(rest[1], 1)]
  {
  }

  /** `data.map((d, i) => …)` over the rest list: one file per value, in order. */
  function RestFiles(rest: seq<RestArg>): (files: seq<Base.File>)
    ensures |files| == |rest|
    ensures forall i :: 0 <= i < |rest| ==> files[i] == RestFile(rest[i], i)
  {
    seq(|rest|, i requires 0 <= i < |rest| => RestFile(rest[i], i))
  }

  lemma FirstRestFile(data: UstInput, params: Option<ParseParams>)
    ensures var f := RestFile(RestList(data, params)[0], 0);
            && (data.One? && data.input.Raw? ==> f == Base.File("data_0.ust", data.input.bytes))
            && (data.One? && data.input.Given? ==> f == data.input.file)
            && (data.Many? ==> f == Base.File("data_0.ust", JsString.Utf8(RestArgText(InputArray(data.inputs)))))
  {
    assert JsString.NatToString(0) == "0";
    assert "data_" + "0" + ".ust" == "data_0.ust";
  }

  lemma SecondRestFile(data: UstInput, params: Option<ParseParams>)
    ensures RestFile(RestList(data, params)[1], 1)
            == Base.File("data_1.ust", JsString.Utf8(ParamsText(params)))
  {
    assert JsString.NatToString(1) == "1";
    assert "data_" + "1" + ".ust" == "data_1.ust";
  }

  /**
    One input hands the engine two files: with raw bytes and no options,
    `data_0.ust` holds the bytes and `data_1.ust` the UTF-8 of the text
    `undefined`, while the corrected call hands it the single file
    `data_0.ust`.
  */
  lemma FromUstOfBytesSendsTwoFiles(bytes: Bytes, engine: Base.ParseEngine)
    ensures FromUst(One(Base.Raw(bytes)), None, engine)
            == Wrap(engine(Ust, [Base.File("data_0.ust", bytes), Base.File("data_1.ust", JsString.Utf8("undefined"))]))
    ensures FromUstCorrected(One(Base.Raw(bytes)), engine) == Wrap(engine(Ust, [Base.File("data_0.ust", bytes)]))
  {
    assert ParamsText(None) == "undefined";
  }

  /**
    An array is not spread: `fromUst([[1, 2], [3]])` hands the engine one
    file `data_0.ust` holding the text `1,2,3`, so two byte arrays merge
    into one file of decimal text.
  */
  lemma FromUstOfArrayMergesInputs(engine: Base.ParseEngine)
    ensures FromUst(Many([Base.Raw([1, 2]), Base.Raw([3])]), None, engine)
            == Wrap(engine(Ust, [Base.File("data_0.ust", JsString.Utf8("1,2,3")),
                                 Base.File("data_1.ust", JsString.Utf8("undefined"))]))
  {
    ArrayTextOfExample();
    assert ParamsText(None) == "undefined";
  }

  lemma ArrayTextOfExample()
    ensures RestArgText(InputArray([Base.Raw([1, 2]), Base.Raw([3])])) == "1,2,3"
  {
    var xs := [Base.Raw([1, 2]), Base.Raw([3])];
    ElementTextOfExample();
    assert seq(|xs|, i requires 0 <= i < |xs| => ElementText(xs[i])) == ["1,2", "3"];
    assert JsString.Join(["1,2", "3"], ',') == "1,2" + [','] + "3";
  }

  lemma ElementTextOfExample()
    ensures ElementText(Base.Raw([1, 2])) == "1,2"
    ensures ElementText(Base.Raw([3])) == "3"
  {
    var a: Bytes := [1, 2];
    var b: Bytes := [3];
    assert JsString.NatToString(1) == "1";
    assert JsString.NatToString(2) == "2";
    assert JsString.NatToString(3) == "3";
    assert seq(|a|, i requires 0 <= i < |a| => JsString.NatToString(a[i] as nat)) == ["1", "2"];
    assert seq(|b|, i requires 0 <= i < |b| => JsString.NatToString(b[i] as nat)) == ["3"];
    assert JsString.Join(["1", "2"], ',') == "1" + [','] + "2";
  }

  /**
    `fromUst` as evidently intended: spread the inputs into `parseUst`,
    one file per input, the options not being a file. Every input reaches
    the engine, in order, with its bytes intact.
  */
  function FromUstCorrected(data: UstInput, engine: Base.ParseEngine): (r: Result<Project, Base.EngineError>)
    ensures var files := Base.MultiParseFiles(Spread(data), "ust");
            && r == Wrap(engine(Ust, files))
            && |files| == |Spread(data)|
            && forall i :: 0 <= i < |files| ==> files[i].content == Base.InputContent(Spread(data)[i])
    ensures data.One? ==> r == Wrap(Base.Parse(Ust, data.input, engine))
  {
    Wrap(Base.ParseUst(Spread(data), engine))
  }

  /** Wrapping a parse outcome as a project. */
  function Wrap<E>(r: Result<UfData, E>): Result<Project, E> {
    match r
    case Ok(d) => Ok(Project(d))
    case Err(e) => Err(e)
  }

  /**
    `fromAny`: the file goes through extension dispatch; its errors are
    the caller's errors and its data becomes the project.
  */
  function FromAny(file: Base.File, engine: Base.ParseEngine): (r: Result<Project, Base.ParseError>)
    ensures r.Ok? <==> Base.ParseAny(file, engine).Ok?
    ensures r.Ok? ==> ToUfDataObject(r.value) == Base.ParseAny(file, engine).value
    ensures r.Err? ==> r.error == Base.ParseAny(file, engine).error
  {
    Wrap(Base.ParseAny(file, engine))
  }

  /**
    A name without a dot is its own extension: `fromAny` rejects it with
    the lower-cased name in the message unless that name is itself a
    supported extension, in which case the file is parsed as that format.
  */
  lemma FromAnyOfDotlessName(file: Base.File, engine: Base.ParseEngine)
    requires '.' !in file.name && |file.name| > 0
    ensures JsString.ToLowerCase(file.name) !in SupportedExtensions ==>
              && FromAny(file, engine) == Err(Base.UnsupportedFileExtension(JsString.ToLowerCase(file.name)))
              && Base.ErrorMessage(FromAny(file, engine).error)
                 == "Unsupported file extension: " + JsString.ToLowerCase(file.name)
    ensures JsString.ToLowerCase(file.name) in SupportedExtensions ==>
              FromAny(file, engine)
              == Wrap(Base.LiftEngine(Base.Parse(ParserFor(JsString.ToLowerCase(file.name)).value, Base.Raw(file.content), engine)))
  {
  }

  /**
    A file whose name ends in `.ust`, in any letter case, is parsed as one
    UST file named `data_0.ust`.
  */
  lemma FromAnyOfUstFile(prefix: string, content: Bytes, engine: Base.ParseEngine)
    ensures FromAny(Base.File(prefix + ".UST", content), engine)
            == FromAny(Base.File(prefix + ".ust", content), engine)
            == Wrap(Base.LiftEngine(engine(Ust, [Base.File("data_0.ust", content)])))
  {
    assert prefix + ".ust" == prefix + "." + "ust";
    Base.ExtensionOfLowerDottedName(prefix, "ust");
    Base.ExtensionOfUpperUst(prefix);
    Base.ParseAnyOfUstName(prefix + ".ust", content, engine);
    Base.ParseAnyOfUstName(prefix + ".UST", content, engine);
  }

  // =====================================================================
  // Generation
  // =====================================================================

  /** `toX()` for a single-file format: the engine generates from a copy of the data. */
  function ToFile(p: Project, g: Base.FileGenerator, engine: Base.GenerateEngine): (r: Result<Bytes, Base.EngineError>)
    ensures r == engine(g, p.data)
  {
    Base.Generate(g, ToUfDataObject(p), engine)
  }

  /** The engine's archive for this project names every member with a track key. */
  predicate ArchiveKeyed(p: Project, g: Base.ArchiveGenerator, engine: Base.ArchiveEngine) {
    engine(g, p.data).Ok? ==> Base.AllTrackKeyed(Name(p), engine(g, p.data).value)
  }

  /** `toUst()` / `toMusicXml()`: one payload per archive member. */
  function ToTracks(p: Project, g: Base.ArchiveGenerator, engine: Base.ArchiveEngine): (r: Result<seq<Bytes>, Base.EngineError>)
    requires ArchiveKeyed(p, g, engine)
    ensures engine(g, p.data).Err? ==> r == Err(engine(g, p.data).error)
    ensures engine(g, p.data).Ok? ==>
              && r == Ok(Base.SplitTracks(Name(p), engine(g, p.data).value))
              && |r.value| == |engine(g, p.data).value|
              && multiset(r.value) == multiset(Archive.Contents(engine(g, p.data).value))
  {
    Base.GenerateSplit(g, ToUfDataObject(p), engine)
  }

  /**
    When the engine names member j of the archive after track index[j]
    by the `{project name}_{track id}_{track name}.{ext}` convention,
    output i of `toUst()` / `toMusicXml()` is the payload of track i,
    whatever the project is called and whatever order the archive lists
    its members in.
  */
  lemma ToTracksInTrackOrder(
    p: Project, g: Base.ArchiveGenerator, engine: Base.ArchiveEngine,
    index: seq<nat>, trackNames: seq<string>, ext: string)
    requires engine(g, p.data).Ok?
    requires |index| == |engine(g, p.data).value| == |trackNames|
    requires forall j :: 0 <= j < |index| ==>
               engine(g, p.data).value[j].name == Base.TrackFileName(Name(p), index[j], trackNames[j], ext)
    requires forall j :: 0 <= j < |index| ==> index[j] < |index|
    requires forall j, l :: 0 <= j < l < |index| ==> index[j] != index[l]
    ensures ArchiveKeyed(p, g, engine)
    ensures ToTracks(p, g, engine).Ok?
    ensures forall j :: 0 <= j < |index| ==>
              ToTracks(p, g, engine).value[index[j]] == engine(g, p.data).value[j].content
  {
    Base.SplitTracksInTrackOrder(Name(p), engine(g, p.data).value, index, trackNames, ext);
  }
}
