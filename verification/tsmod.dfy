/**
  The older entry point built on the engine's TypeScript export: every
  parser takes exactly one byte array, `parseAny` dispatches through the
  same extension table, and the archive generators read a member's track
  key as the second `_`-separated token of its name.
*/
module TsMod {
  import opened Results
  import opened Canonical
  import JsString
  import Archive
  import opened Parsers
  import Base

  /**
    The engine's parsers followed by its export to canonical data. The
    import parameters are always the empty object `{}`, so they are not
    an argument here.
  */
  type ParseEngine = (Parser, Base.File) -> Result<UfData, Base.EngineError>

  /** `createParse`: the bytes always become `data.<ext>`, the UST parser included. */
  function ParseFile(p: Parser, data: Bytes): (f: Base.File)
    ensures f.content == data
    ensures Base.Extension(f.name) == ParserExtension(p)
  {
    Base.ExtensionOfLowerDottedName("data", ParserExtension(p));
    Base.File("data." + ParserExtension(p), data)
  }

  /**
    A parse function of this entry point. Every parser except the UST one
    is handed exactly the file the lower-level single-file parse builds;
    the UST parser gets `data.ust` where the lower level sends `data_0.ust`.
  */
  function Parse(p: Parser, data: Bytes, engine: ParseEngine): (r: Result<UfData, Base.EngineError>)
    ensures p != Ust ==> r == engine(p, Base.SingleParseFile(Base.Raw(data), ParserExtension(p)))
    ensures p == Ust ==> r == engine(Ust, Base.File("data.ust", data))
  {
    if p == Ust then
      UstFileName();
      engine(p, ParseFile(p, data))
    else engine(p, ParseFile(p, data))
  }

  lemma UstFileName()
    ensures "data." + ParserExtension(Ust) == "data.ust"
  {
  }

  /**
    Parse a file by its extension, with the same errors, messages and
    table as the lower-level `parseAny`.
  */
  function ParseAny(file: Base.File, engine: ParseEngine): (r: Result<UfData, Base.ParseError>)
    ensures r == Err(Base.NoFileExtension) <==> |file.name| == 0 || file.name[|file.name| - 1] == '.'
    ensures (r.Err? && r.error.UnsupportedFileExtension?)
            <==> Base.Extension(file.name) != "" && Base.Extension(file.name) !in SupportedExtensions
    ensures r.Err? && r.error.UnsupportedFileExtension? ==> r.error.ext == Base.Extension(file.name)
    ensures ParserFor(Base.Extension(file.name)).Some? ==>
              r == Base.LiftEngine(Parse(ParserFor(Base.Extension(file.name)).value, file.content, engine))
  {
    var ext := Base.Extension(file.name);
    JsString.ToLowerCaseIdempotent(JsString.LastToken(file.name, '.'));
    if ext == "" then Err(Base.NoFileExtension)
    else
      match ParserFor(ext)
      case None => Err(Base.UnsupportedFileExtension(ext))
      case Some(p) => Base.LiftEngine(Parse(p, file.content, engine))
  }

  /**
    Both entry points reject exactly the same files with exactly the same
    error, whatever their engines do; they differ only in what the engine
    is handed.
  */
  lemma ParseAnyRejectsAlike(file: Base.File, engine: ParseEngine, baseEngine: Base.ParseEngine)
    ensures ParseAny(file, engine).Err? && !ParseAny(file, engine).error.EngineFailure?
            <==> Base.ParseAny(file, baseEngine).Err? && !Base.ParseAny(file, baseEngine).error.EngineFailure?
    ensures ParseAny(file, engine).Err? && !ParseAny(file, engine).error.EngineFailure? ==>
              ParseAny(file, engine) == Base.ParseAny(file, baseEngine)
  {
    var ext := Base.Extension(file.name);
    if ext != "" && ParserFor(ext).Some? {
      var p := ParserFor(ext).value;
      assert ParseAny(file, engine) == Base.LiftEngine(Parse(p, file.content, engine));
      assert Base.ParseAny(file, baseEngine) == Base.LiftEngine(Base.Parse(p, Base.Raw(file.content), baseEngine));
    }
  }

  /**
    The track key as this entry point reads it: the second token of the
    name split on `_`, through `parseInt` without a radix. A name without
    `_` has no second token, and `parseInt(undefined)` is `NaN`.
  */
  function TrackKey(entryName: string): (k: Option<int>)
    ensures '_' !in entryName ==> k == None
  {
    var parts := JsString.Split(entryName, '_');
    if |parts| < 2 then None else JsString.ParseInt(parts[1], JsString.Unspecified)
  }

  /**
    When the project name has no `_`, the second token is the track index
    and this reading agrees with the lower-level one.
  */
  lemma TrackKeyOfTrackFileName(projectName: string, index: nat, trackName: string, ext: string)
    requires '_' !in projectName
    ensures TrackKey(Base.TrackFileName(projectName, index, trackName, ext)) == Some(index)
    ensures TrackKey(Base.TrackFileName(projectName, index, trackName, ext))
            == Base.TrackKey(projectName, Base.TrackFileName(projectName, index, trackName, ext))
  {
    var digits := JsString.NatToString(index);
    var tail := trackName + "." + ext;
    var name := Base.TrackFileName(projectName, index, trackName, ext);
    assert name == projectName + ['_'] + (digits + ['_'] + tail);
    JsString.SplitAtFirst(projectName, '_', digits + ['_'] + tail);
    JsString.NatToStringExcludes(index, '_');
    JsString.SplitAtFirst(digits, '_', tail);
    assert JsString.Split(name, '_')[1] == digits;
    JsString.ParseIntOfNatToString(index);
    Base.TrackKeyOfTrackFileName(projectName, index, trackName, ext);
  }

  /** Every member name yields a track key under this reading. */
  predicate AllTrackKeyed(entries: seq<Archive.Entry>) {
    forall i :: 0 <= i < |entries| ==> TrackKey(entries[i].name).Some?
  }

  /** `createMultiGenerate` after decompression, as written. */
  function SplitTracks(entries: seq<Archive.Entry>): (r: seq<Bytes>)
    requires AllTrackKeyed(entries)
    ensures |r| == |entries|
    ensures multiset(r) == multiset(Archive.Contents(entries))
  {
    Archive.SplitByKey(entries, TrackKey)
  }

  /** The payloads come out by non-decreasing key; equal keys keep enumeration order. */
  lemma SplitTracksOrdered(entries: seq<Archive.Entry>)
    requires AllTrackKeyed(entries)
    ensures Archive.AllKeyed(entries, TrackKey)
    ensures var sorted := Archive.StableSort.Sort(Archive.Keyed(entries, TrackKey));
            && SplitTracks(entries) == Archive.StableSort.Values(sorted)
            && Archive.StableSort.SortedByKey(sorted)
            && forall k :: Archive.StableSort.WithKey(sorted, k) == Archive.StableSort.WithKey(Archive.Keyed(entries, TrackKey), k)
  {
    Archive.SplitByKeyOrdered(entries, TrackKey);
  }

  /**
    With a project name free of `_` and members named by the engine's
    convention with indices forming a permutation of 0, 1, …, n-1, output
    `i` is the payload of track `i`.
  */
  lemma SplitTracksInTrackOrder(
    projectName: string, entries: seq<Archive.Entry>, index: seq<nat>, trackNames: seq<string>, ext: string)
    requires '_' !in projectName
    requires |index| == |entries| == |trackNames|
    requires forall j :: 0 <= j < |entries| ==>
               entries[j].name == Base.TrackFileName(projectName, index[j], trackNames[j], ext)
    requires forall j :: 0 <= j < |index| ==> index[j] < |index|
    requires forall j, l :: 0 <= j < l < |index| ==> index[j] != index[l]
    ensures AllTrackKeyed(entries)
    ensures forall j :: 0 <= j < |entries| ==> SplitTracks(entries)[index[j]] == entries[j].content
  {
    forall j | 0 <= j < |entries|
      ensures TrackKey(entries[j].name) == Some(index[j])
    {
      TrackKeyOfTrackFileName(projectName, index[j], trackNames[j], ext);
    }
    Archive.SplitByKeyInIndexOrder(entries, TrackKey, index);
  }

  /** `createMultiGenerate(createGenerate(…))`: generate the archive and split it. */
  function GenerateSplit(g: Base.ArchiveGenerator, data: UfData, engine: Base.ArchiveEngine): (r: Result<seq<Bytes>, Base.EngineError>)
    requires engine(g, data).Ok? ==> AllTrackKeyed(engine(g, data).value)
    ensures engine(g, data).Err? ==> r == Err(engine(g, data).error)
    ensures engine(g, data).Ok? ==> r == Ok(SplitTracks(engine(g, data).value))
    ensures engine(g, data).Ok? ==> multiset(r.value) == multiset(Archive.Contents(engine(g, data).value))
  {
    match engine(g, data)
    case Err(e) => Err(e)
    case Ok(entries) => Ok(SplitTracks(entries))
  }

  /**
    With a project name free of `_`, an archive of track files named by
    the engine's convention comes back in track order.
  */
  lemma GenerateSplitInTrackOrder(
    g: Base.ArchiveGenerator, data: UfData, engine: Base.ArchiveEngine, index: seq<nat>, trackNames: seq<string>, ext: string)
    requires '_' !in data.project.name
    requires engine(g, data).Ok?
    requires |index| == |engine(g, data).value| == |trackNames|
    requires forall j :: 0 <= j < |index| ==>
               engine(g, data).value[j].name == Base.TrackFileName(data.project.name, index[j], trackNames[j], ext)
    requires forall j :: 0 <= j < |index| ==> index[j] < |index|
    requires forall j, l :: 0 <= j < l < |index| ==> index[j] != index[l]
    ensures AllTrackKeyed(engine(g, data).value)
    ensures GenerateSplit(g, data, engine).Ok?
    ensures forall j :: 0 <= j < |index| ==>
              GenerateSplit(g, data, engine).value[index[j]] == engine(g, data).value[j].content
  {
    SplitTracksInTrackOrder(data.project.name, engine(g, data).value, index, trackNames, ext);
  }

  /**
    Two tracks of `project`, listed by the archive as track 1 then track
    0: this reading gives track 0 the key `k` and keeps the listed order,
    while the lower-level reading gives it key 0 and restores track order.
  */
  predicate ReadingsDisagree(
    project: string, k: int, name0: string, name1: string, ext: string, content0: Bytes, content1: Bytes)
  {
    var track0 := Archive.Entry(Base.TrackFileName(project, 0, name0, ext), content0);
    var track1 := Archive.Entry(Base.TrackFileName(project, 1, name1, ext), content1);
    && TrackKey(track0.name) == Some(k)
    && Base.TrackKey(project, track0.name) == Some(0)
    && AllTrackKeyed([track1, track0])
    && SplitTracks([track1, track0]) == [content1, content0]
    && Base.AllTrackKeyed(project, [track1, track0])
    && Base.SplitTracks(project, [track1, track0]) == [content0, content1]
  }

  /**
    The key reading is wrong once the project name contains `_`: in a
    project named `<head>_1` (`a_1`, say) every track file gets key 1, so a
    two-track archive listing track 1 before track 0 comes out in that
    listed order, while the lower-level reading, which strips the project
    name first, restores track order.
  */
  lemma UnderscoreProjectNameMisordersTracks(
    head: string, name0: string, name1: string, ext: string, content0: Bytes, content1: Bytes)
    requires '_' !in head
    ensures ReadingsDisagree(head + "_1", 1, name0, name1, ext, content0, content1)
  {
    SubProjectOne(head);
    SubProjectMisordersTracks(head + "_1", head, "1", 1, name0, name1, ext, content0, content1);
  }

  /**
    For a project `<head>_<sub>` whose `sub` reads as a number, two tracks
    listed as track 1 then track 0 keep that listed order under this
    reading, and are put back in track order by the lower-level one.
  */
  lemma SubProjectMisordersTracks(
    project: string, head: string, sub: string, k: int, name0: string, name1: string, ext: string,
    content0: Bytes, content1: Bytes)
    requires project == head + "_" + sub
    requires '_' !in head && '_' !in sub
    requires JsString.ParseInt(sub, JsString.Unspecified) == Some(k)
    ensures ReadingsDisagree(project, k, name0, name1, ext, content0, content1)
  {
    var track0 := Archive.Entry(Base.TrackFileName(project, 0, name0, ext), content0);
    var track1 := Archive.Entry(Base.TrackFileName(project, 1, name1, ext), content1);
    SecondTokenOfSubProject(head, sub, 0, name0, ext);
    SecondTokenOfSubProject(head, sub, 1, name1, ext);
    Archive.SplitByKeyOfPair(track1, track0, TrackKey);
    Base.TrackKeyOfTrackFileName(project, 0, name0, ext);
    Base.TrackKeyOfTrackFileName(project, 1, name1, ext);
    Archive.SplitByKeyOfPair(track1, track0, Base.KeyReader(project));
  }

  /** `<head>_1` is a sub-project named `1`, which reads as the number 1. */
  lemma SubProjectOne(head: string)
    ensures head + "_1" == head + "_" + "1"
    ensures '_' !in "1"
    ensures JsString.ParseInt("1", JsString.Unspecified) == Some(1)
  {
    SubProjectName(head);
    ParseIntOfOne();
  }

  lemma SubProjectName(head: string)
    ensures head + "_1" == head + "_" + "1"
    ensures '_' !in "1"
  {
    assert "_1" == "_" + "1";
  }

  lemma ParseIntOfOne()
    ensures JsString.ParseInt("1", JsString.Unspecified) == Some(1)
  {
    assert JsString.NatToString(1) == "1";
    JsString.ParseIntOfNatToString(1);
  }

  /**
    In a project named `<head>_<sub>` with `head` free of `_`, the second
    token of every track file name is `sub`, not the track index.
  */
  lemma SecondTokenOfSubProject(head: string, sub: string, index: nat, trackName: string, ext: string)
    requires '_' !in head && '_' !in sub
    ensures TrackKey(Base.TrackFileName(head + "_" + sub, index, trackName, ext))
            == JsString.ParseInt(sub, JsString.Unspecified)
  {
    var rest := JsString.NatToString(index) + "_" + trackName + "." + ext;
    assert Base.TrackFileName(head + "_" + sub, index, trackName, ext) == head + ['_'] + (sub + ['_'] + rest);
    JsString.SplitAtFirst(head, '_', sub + ['_'] + rest);
    JsString.SplitAtFirst(sub, '_', rest);
  }

  /**
    The corrected split for this entry point: read keys as the lower-level
    library does. It puts tracks in order for every project name.
  */
  function SplitTracksCorrected(projectName: string, entries: seq<Archive.Entry>): (r: seq<Bytes>)
    requires Base.AllTrackKeyed(projectName, entries)
    ensures |r| == |entries|
    ensures multiset(r) == multiset(Archive.Contents(entries))
  {
    Base.SplitTracks(projectName, entries)
  }

  /** The corrected split restores track order whatever the project name. */
  lemma SplitTracksCorrectedInTrackOrder(
    projectName: string, entries: seq<Archive.Entry>, index: seq<nat>, trackNames: seq<string>, ext: string)
    requires |index| == |entries| == |trackNames|
    requires forall j :: 0 <= j < |entries| ==>
               entries[j].name == Base.TrackFileName(projectName, index[j], trackNames[j], ext)
    requires forall j :: 0 <= j < |index| ==> index[j] < |index|
    requires forall j, l :: 0 <= j < l < |index| ==> index[j] != index[l]
    ensures Base.AllTrackKeyed(projectName, entries)
    ensures forall j :: 0 <= j < |entries| ==> SplitTracksCorrected(projectName, entries)[index[j]] == entries[j].content
  {
    Base.SplitTracksInTrackOrder(projectName, entries, index, trackNames, ext);
  }
}
