/**
  The parse functions of the library and the extension table `parseAny`
  dispatches through. Kept apart from the string machinery so that facts
  about the table stay cheap to prove.
*/
module Parsers {
  import opened Results

  /** The parse functions the module exports. */
  datatype Parser =
    | Ccs | Dv | MusicXml | Ppsf | S5p | StandardMid | Svp
    | Ust | Ustx | VocaloidMid | Vpr | Vsq | Vsqx

  /** The extension each parse function gives to raw bytes it wraps. */
  function ParserExtension(p: Parser): (ext: string)
    ensures '.' !in ext
    ensures forall i :: 0 <= i < |ext| ==> 'a' <= ext[i] <= 'z' || '0' <= ext[i] <= '9'
  {
    match p
    case Ccs => "ccs"
    case Dv => "dv"
    case MusicXml => "musicxml"
    case Ppsf => "ppsf"
    case S5p => "s5p"
    case StandardMid => "mid"
    case Svp => "svp"
    case Ust => "ust"
    case Ustx => "ustx"
    case VocaloidMid => "mid"
    case Vpr => "vpr"
    case Vsq => "vsq"
    case Vsqx => "vsqx"
  }

  /** `parseFunctions`: extension to parse function. */
  const ParseFunctions: map<string, Parser> := map[
    "ccs" := Ccs,
    "dv" := Dv,
    "musicxml" := MusicXml,
    "xml" := MusicXml,
    "ppsf" := Ppsf,
    "s5p" := S5p,
    "mid" := StandardMid,
    "svp" := Svp,
    "ust" := Ust,
    "ustx" := Ustx,
    "vpr" := Vpr,
    "vsq" := Vsq,
    "vsqx" := Vsqx
  ]

  /** The extensions `parseAny` recognises. */
  const SupportedExtensions: set<string> :=
    {"ccs", "dv", "musicxml", "xml", "ppsf", "s5p", "mid", "svp", "ust", "ustx", "vpr", "vsq", "vsqx"}

  lemma ParseFunctionsKeys()
    ensures ParseFunctions.Keys == SupportedExtensions
  {
  }

  lemma SupportedExtensionsCount()
    ensures |SupportedExtensions| == 13
  {
  }

  /** The table has thirteen entries. */
  lemma ParseFunctionsCount()
    ensures |ParseFunctions| == 13
  {
    ParseFunctionsKeys();
    SupportedExtensionsCount();
  }

  /**
    Looking an extension up in the table. Exactly the thirteen supported
    extensions are mapped; `xml` and `musicxml` share the MusicXML parser,
    `mid` means Standard MIDI, the Vocaloid MIDI parser is never chosen,
    and apart from the `xml` alias every extension picks the parser that
    names its own files with that extension.
  */
  function ParserFor(ext: string): (r: Option<Parser>)
    ensures r.Some? <==> ext in SupportedExtensions
    ensures r.Some? ==> r.value != VocaloidMid
    ensures ext == "xml" || ext == "musicxml" ==> r == Some(MusicXml)
    ensures ext == "mid" ==> r == Some(StandardMid)
    ensures r.Some? && ext != "xml" ==> ParserExtension(r.value) == ext
  {
    ParseFunctionsKeys();
    if ext in ParseFunctions then Some(ParseFunctions[ext]) else None
  }

  /** Every parser but the Vocaloid MIDI one is what its own extension dispatches to. */
  lemma ParseFunctionsRouteBack(p: Parser)
    requires p != VocaloidMid
    ensures ParserFor(ParserExtension(p)) == Some(p)
  {
  }
}
