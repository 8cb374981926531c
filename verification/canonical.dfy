/**
  The canonical interchange document ("UtaFormatix data", version 1) that
  every parser produces and every generator consumes. The adaptation layer
  copies and edits it but never interprets timing or pitch, so those fields
  are carried as plain values.
*/
module Canonical {
  import opened Results

  type Bytes = seq<bv8>

  /** One sung note: MIDI key, start and end tick, lyric and optional phoneme. */
  datatype Note = Note(
    key: int,
    tickOn: int,
    tickOff: int,
    lyric: string,
    phoneme: Option<string>
  )

  /** Pitch curve of a track: parallel tick and value lists (a value may be `null`). */
  datatype Pitch = Pitch(ticks: seq<int>, values: seq<Option<real>>, isAbsolute: bool)

  datatype Track = Track(name: string, notes: seq<Note>, pitch: Option<Pitch>)

  datatype Tempo = Tempo(tickPosition: int, bpm: real)

  datatype TimeSignature = TimeSignature(measurePosition: int, numerator: int, denominator: int)

  /** The `project` part of the document; track order is significant. */
  datatype ProjectData = ProjectData(
    name: string,
    tracks: seq<Track>,
    timeSignatures: seq<TimeSignature>,
    tempos: seq<Tempo>,
    measurePrefix: int
  )

  datatype UfData = UfData(formatVersion: int, project: ProjectData)
}
