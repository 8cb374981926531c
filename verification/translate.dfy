/**
  Dialect translators: total, pure rewrites of one canonical track that
  compensate for the lyric conventions of particular formats.
*/
module Translate {
  import opened Results
  import opened Canonical
  import JsString

  // =====================================================================
  // removeBreaths
  // =====================================================================

  /** UTAU marks breaths and rests with a lyric ending in `R`. */
  predicate IsBreath(note: Note) {
    JsString.EndsWith(note.lyric, "R")
  }

  /** `notes.filter((note) => !note.lyric.endsWith("R"))` */
  function WithoutBreaths(notes: seq<Note>): (kept: seq<Note>)
    ensures |kept| <= |notes|
    ensures forall i :: 0 <= i < |kept| ==> !IsBreath(kept[i])
  {
    if |notes| == 0 then []
    else (if IsBreath(notes[0]) then [] else [notes[0]]) + WithoutBreaths(notes[1..])
  }

  /** `a` is `b` with some elements deleted: same elements, same relative order. */
  predicate IsSubsequence<T(==)>(a: seq<T>, b: seq<T>)
    decreases |b|
  {
    || |a| == 0
    || (&& |b| > 0
        && ((a[0] == b[0] && IsSubsequence(a[1..], b[1..])) || IsSubsequence(a, b[1..])))
  }

  /**
    The track with its breath notes dropped. Every field other than `notes`
    is kept, no breath remains, and what remains is a subsequence of the
    original notes.
  */
  function RemoveBreaths(track: Track): (r: Track)
    ensures r.name == track.name && r.pitch == track.pitch
    ensures forall i :: 0 <= i < |r.notes| ==> !IsBreath(r.notes[i])
    ensures IsSubsequence(r.notes, track.notes)
  {
    WithoutBreathsIsSubsequence(track.notes);
    track.(notes := WithoutBreaths(track.notes))
  }

  lemma {:induction false} WithoutBreathsIsSubsequence(notes: seq<Note>)
    ensures IsSubsequence(WithoutBreaths(notes), notes)
  {
    if |notes| > 0 {
      var rest := WithoutBreaths(notes[1..]);
      WithoutBreathsIsSubsequence(notes[1..]);
      if !IsBreath(notes[0]) {
        var kept := [notes[0]] + rest;
        assert kept == WithoutBreaths(notes);
        assert kept[0] == notes[0] && kept[1..] == rest;
      } else {
        assert rest == WithoutBreaths(notes);
      }
    }
  }

  /**
    The filter keeps every non-breath note as often as it occurs and drops
    every breath note: together with the subsequence property this fixes
    the result completely.
  */
  lemma {:induction false} WithoutBreathsCounts(notes: seq<Note>, n: Note)
    ensures multiset(WithoutBreaths(notes))[n] == if IsBreath(n) then 0 else multiset(notes)[n]
  {
    if |notes| > 0 {
      WithoutBreathsCounts(notes[1..], n);
      assert notes == [notes[0]] + notes[1..];
    }
  }

  /** A track without breaths passes through the filter unchanged. */
  lemma {:induction false} WithoutBreathsOfClean(notes: seq<Note>)
    requires forall i :: 0 <= i < |notes| ==> !IsBreath(notes[i])
    ensures WithoutBreaths(notes) == notes
  {
    if |notes| > 0 {
      WithoutBreathsOfClean(notes[1..]);
    }
  }

  /** The note count stays the same exactly when no lyric ends in `R`. */
  lemma {:induction false} RemoveBreathsKeepsCountIff(track: Track)
    ensures |RemoveBreaths(track).notes| == |track.notes|
            <==> forall i :: 0 <= i < |track.notes| ==> !IsBreath(track.notes[i])
  {
    var notes := track.notes;
    if forall i :: 0 <= i < |notes| ==> !IsBreath(notes[i]) {
      WithoutBreathsOfClean(notes);
    } else {
      var i :| 0 <= i < |notes| && IsBreath(notes[i]);
      WithoutBreathsCounts(notes, notes[i]);
      assert notes[i] in multiset(notes);
      WithoutBreathsShrinks(notes, i);
    }
  }

  /** Dropping any breath makes the list strictly shorter. */
  lemma {:induction false} WithoutBreathsShrinks(notes: seq<Note>, i: nat)
    requires i < |notes| && IsBreath(notes[i])
    ensures |WithoutBreaths(notes)| < |notes|
  {
    if i > 0 {
      WithoutBreathsShrinks(notes[1..], i - 1);
    }
  }

  /** Removing breaths twice is removing them once. */
  lemma RemoveBreathsIdempotent(track: Track)
    ensures RemoveBreaths(RemoveBreaths(track)) == RemoveBreaths(track)
  {
    WithoutBreathsOfClean(RemoveBreaths(track).notes);
  }

  /** Four notes, one of them a breath: three remain, in their original order. */
  lemma RemoveBreathsFourNotes()
    ensures
      var n0 := Note(60, 0, 480, "\U{3069}", None);
      var br := Note(60, 480, 960, "R", None);
      var n2 := Note(62, 960, 1440, "\U{308C}", None);
      var n3 := Note(64, 1440, 1920, "\U{307F}", None);
      var t := Track("Track 1", [n0, br, n2, n3], None);
      RemoveBreaths(t).notes == [n0, n2, n3]
  {
    var n0 := Note(60, 0, 480, "\U{3069}", None);
    var br := Note(60, 480, 960, "R", None);
    var n2 := Note(62, 960, 1440, "\U{308C}", None);
    var n3 := Note(64, 1440, 1920, "\U{307F}", None);
    var notes := [n0, br, n2, n3];
    assert notes[1..] == [br, n2, n3];
    assert notes[1..][1..] == [n2, n3];
    assert notes[1..][1..][1..] == [n3];
    assert !IsBreath(n0) && IsBreath(br) && !IsBreath(n2) && !IsBreath(n3);
  }

  // =====================================================================
  // replaceVowelConnections
  // =====================================================================

  /**
    The class `[+-ー]` as JavaScript reads it: `+-ー` is a RANGE from U+002B
    to U+30FC, so it holds `+`, `-` and `ー` but also every ASCII digit and
    letter, all hiragana and most katakana. Lone UTF-16 surrogates lie
    above U+30FC, so testing scalar values gives the same matches.
  */
  predicate InVowelConnectionRange(c: char) {
    '+' <= c <= '\U{30FC}'
  }

  /** The long-vowel mark `ー` (U+30FC), the default replacement. */
  const LongVowelMark: char := '\U{30FC}'

  /**
    The replacement text for a one-character match at `pos` of `str`
    (ECMAScript's GetSubstitution for a pattern without capture groups):
    `$$` gives `$`, `$&` the match, `` $` `` the text before it, `$'` the
    text after it; any other `$` is literal.
  */
  function Substitution(template: string, str: string, pos: nat): (r: string)
    requires pos < |str|
    ensures '$' !in template ==> r == template
    ensures template == "$&" ==> r == [str[pos]]
    decreases |template|
  {
    if |template| == 0 then ""
    else if template[0] == '$' && |template| >= 2 && template[1] == '$' then
      "$" + Substitution(template[2..], str, pos)
    else if template[0] == '$' && |template| >= 2 && template[1] == '&' then
      [str[pos]] + Substitution(template[2..], str, pos)
    else if template[0] == '$' && |template| >= 2 && template[1] == '`' then
      str[..pos] + Substitution(template[2..], str, pos)
    else if template[0] == '$' && |template| >= 2 && template[1] == '\'' then
      str[pos + 1..] + Substitution(template[2..], str, pos)
    else
      [template[0]] + Substitution(template[1..], str, pos)
  }

  /** Replacement of the matches of `s[i..]`, each match at its position in `s`. */
  function ReplaceFrom(s: string, replaceTo: string, inClass: char -> bool, i: nat): string
    requires i <= |s|
    decreases |s| - i
  {
    if i == |s| then ""
    else
      (if inClass(s[i]) then Substitution(replaceTo, s, i) else [s[i]])
      + ReplaceFrom(s, replaceTo, inClass, i + 1)
  }

  /** `s.replace(/[…]/g, replaceTo)` for a one-character class `inClass`. */
  function ReplaceAll(s: string, replaceTo: string, inClass: char -> bool): (r: string)
    ensures (forall k :: 0 <= k < |s| ==> !inClass(s[k])) ==> r == s
    ensures replaceTo == "$&" ==> r == s
  {
    var r := ReplaceFrom(s, replaceTo, inClass, 0);
    assert (forall k :: 0 <= k < |s| ==> !inClass(s[k])) ==> r == s by {
      if forall k :: 0 <= k < |s| ==> !inClass(s[k]) {
        ReplaceFromNoMatch(s, replaceTo, inClass, 0);
      }
    }
    assert replaceTo == "$&" ==> r == s by {
      if replaceTo == "$&" {
        ReplaceFromWithMatch(s, inClass, 0);
      }
    }
    r
  }

  /** Reference definition: each character of the class becomes `replaceTo`, the rest stay. */
  function LiteralReplace(s: string, replaceTo: string, inClass: char -> bool): string
  {
    if |s| == 0 then ""
    else (if inClass(s[0]) then replaceTo else [s[0]]) + LiteralReplace(s[1..], replaceTo, inClass)
  }

  lemma {:induction false} ReplaceFromLiteral(s: string, replaceTo: string, inClass: char -> bool, i: nat)
    requires i <= |s|
    requires '$' !in replaceTo
    ensures ReplaceFrom(s, replaceTo, inClass, i) == LiteralReplace(s[i..], replaceTo, inClass)
    decreases |s| - i
  {
    if i < |s| {
      ReplaceFromLiteral(s, replaceTo, inClass, i + 1);
      assert s[i..][1..] == s[i + 1..];
    }
  }

  /**
    A replacement text without `$` is inserted literally in place of every
    character of the class; every other character is kept, in order.
  */
  lemma ReplaceAllIsLiteral(s: string, replaceTo: string, inClass: char -> bool)
    requires '$' !in replaceTo
    ensures ReplaceAll(s, replaceTo, inClass) == LiteralReplace(s, replaceTo, inClass)
  {
    ReplaceFromLiteral(s, replaceTo, inClass, 0);
  }

  lemma {:induction false} ReplaceFromPointwise(s: string, replaceTo: string, inClass: char -> bool, i: nat)
    requires i <= |s|
    requires |replaceTo| == 1
    ensures var r := ReplaceFrom(s, replaceTo, inClass, i);
            && |r| == |s| - i
            && forall k :: 0 <= k < |r| ==> r[k] == if inClass(s[i + k]) then replaceTo[0] else s[i + k]
    decreases |s| - i
  {
    if i < |s| {
      ReplaceFromPointwise(s, replaceTo, inClass, i + 1);
      assert Substitution(replaceTo, s, i) == replaceTo;
    }
  }

  /**
    With a one-character replacement (any character, `$` included) the
    length is kept and position by position a class member becomes the
    replacement while everything else is kept.
  */
  lemma ReplaceAllPointwise(s: string, replaceTo: string, inClass: char -> bool)
    requires |replaceTo| == 1
    ensures |ReplaceAll(s, replaceTo, inClass)| == |s|
    ensures forall k :: 0 <= k < |s| ==>
              ReplaceAll(s, replaceTo, inClass)[k] == if inClass(s[k]) then replaceTo[0] else s[k]
  {
    ReplaceFromPointwise(s, replaceTo, inClass, 0);
  }

  /** A string with no character of the class is returned unchanged, whatever the replacement. */
  lemma {:induction false} ReplaceFromNoMatch(s: string, replaceTo: string, inClass: char -> bool, i: nat)
    requires i <= |s|
    requires forall k :: 0 <= k < |s| ==> !inClass(s[k])
    ensures ReplaceFrom(s, replaceTo, inClass, i) == s[i..]
    decreases |s| - i
  {
    if i < |s| {
      ReplaceFromNoMatch(s, replaceTo, inClass, i + 1);
      assert s[i..] == [s[i]] + s[i + 1..];
    }
  }

  /** With `$&` every match is replaced by itself. */
  lemma {:induction false} ReplaceFromWithMatch(s: string, inClass: char -> bool, i: nat)
    requires i <= |s|
    ensures ReplaceFrom(s, "$&", inClass, i) == s[i..]
    decreases |s| - i
  {
    if i < |s| {
      ReplaceFromWithMatch(s, inClass, i + 1);
      assert "$&"[2..] == "";
      assert s[i..] == [s[i]] + s[i + 1..];
    }
  }

  /** A one-character replacement is idempotent. */
  lemma ReplaceAllIdempotent(s: string, replaceTo: string, inClass: char -> bool)
    requires |replaceTo| == 1
    ensures ReplaceAll(ReplaceAll(s, replaceTo, inClass), replaceTo, inClass) == ReplaceAll(s, replaceTo, inClass)
  {
    var once := ReplaceAll(s, replaceTo, inClass);
    ReplaceAllPointwise(s, replaceTo, inClass);
    ReplaceAllPointwise(once, replaceTo, inClass);
  }

  /** Rewrites every lyric of the track; every other field of track and notes is kept. */
  function ReplaceInLyrics(track: Track, replaceTo: string, inClass: char -> bool): (r: Track)
    ensures r.name == track.name && r.pitch == track.pitch
    ensures |r.notes| == |track.notes|
    ensures forall i :: 0 <= i < |r.notes| ==>
              r.notes[i] == track.notes[i].(lyric := r.notes[i].lyric)
  {
    track.(notes := seq(|track.notes|, i requires 0 <= i < |track.notes| =>
      track.notes[i].(lyric := ReplaceAll(track.notes[i].lyric, replaceTo, inClass))))
  }

  /**
    `replaceVowelConnections(track, replaceTo = "ー")`: in every lyric, each
    character of the range U+002B..U+30FC is replaced.
  */
  function ReplaceVowelConnections(track: Track, replaceTo: string := [LongVowelMark]): (r: Track)
    ensures r.name == track.name && r.pitch == track.pitch
    ensures |r.notes| == |track.notes|
    ensures forall i :: 0 <= i < |r.notes| ==> r.notes[i] == track.notes[i].(lyric := r.notes[i].lyric)
    ensures forall i :: 0 <= i < |r.notes| ==>
              r.notes[i].lyric == ReplaceAll(track.notes[i].lyric, replaceTo, InVowelConnectionRange)
  {
    ReplaceInLyrics(track, replaceTo, InVowelConnectionRange)
  }

  /** `+`, `-` and `ー` are in the range, so all three are replaced. */
  lemma VowelConnectionMarksInRange()
    ensures InVowelConnectionRange('+') && InVowelConnectionRange('-') && InVowelConnectionRange(LongVowelMark)
  {
  }

  /**
    With the default replacement every lyric keeps its length; a character
    of the range becomes `ー`, any other character stays.
  */
  lemma ReplaceVowelConnectionsDefault(track: Track)
    ensures var r := ReplaceVowelConnections(track);
            forall i, k :: 0 <= i < |track.notes| && 0 <= k < |track.notes[i].lyric| ==>
              && |r.notes[i].lyric| == |track.notes[i].lyric|
              && r.notes[i].lyric[k] == if InVowelConnectionRange(track.notes[i].lyric[k]) then LongVowelMark else track.notes[i].lyric[k]
  {
    forall i | 0 <= i < |track.notes| {
      ReplaceAllPointwise(track.notes[i].lyric, [LongVowelMark], InVowelConnectionRange);
    }
  }

  /** A one-character replacement (the default included) is idempotent on the whole track. */
  lemma ReplaceVowelConnectionsIdempotent(track: Track, replaceTo: string)
    requires |replaceTo| == 1
    ensures ReplaceVowelConnections(ReplaceVowelConnections(track, replaceTo), replaceTo)
            == ReplaceVowelConnections(track, replaceTo)
  {
    var once := ReplaceVowelConnections(track, replaceTo);
    var twice := ReplaceVowelConnections(once, replaceTo);
    forall i | 0 <= i < |track.notes|
      ensures twice.notes[i] == once.notes[i]
    {
      ReplaceAllIdempotent(track.notes[i].lyric, replaceTo, InVowelConnectionRange);
    }
  }

  /** Lyrics without any character of the range come back unchanged. */
  lemma ReplaceVowelConnectionsNoMatch(track: Track, replaceTo: string)
    requires forall i, k :: 0 <= i < |track.notes| && 0 <= k < |track.notes[i].lyric| ==>
               !InVowelConnectionRange(track.notes[i].lyric[k])
    ensures ReplaceVowelConnections(track, replaceTo) == track
  {
    var r := ReplaceVowelConnections(track, replaceTo);
    forall i | 0 <= i < |track.notes|
      ensures r.notes[i] == track.notes[i]
    {
      assert r.notes[i].lyric == ReplaceAll(track.notes[i].lyric, replaceTo, InVowelConnectionRange);
    }
  }

  // =====================================================================
  // Only the three marks written in the class
  // =====================================================================

  /** The three characters written in the class `[+-ー]`: `+`, `-` and `ー`, read as a list of marks. */
  predicate IsVowelConnectionMark(c: char) {
    c == '+' || c == '-' || c == LongVowelMark
  }

  /** Replacement restricted to the three vowel-connection marks, `/[+\-ー]/g`. */
  function ReplaceVowelConnectionMarks(track: Track, replaceTo: string := [LongVowelMark]): (r: Track)
    ensures r.name == track.name && r.pitch == track.pitch
    ensures |r.notes| == |track.notes|
    ensures forall i :: 0 <= i < |r.notes| ==> r.notes[i] == track.notes[i].(lyric := r.notes[i].lyric)
    ensures forall i :: 0 <= i < |r.notes| ==>
              r.notes[i].lyric == ReplaceAll(track.notes[i].lyric, replaceTo, IsVowelConnectionMark)
  {
    ReplaceInLyrics(track, replaceTo, IsVowelConnectionMark)
  }

  /**
    With a one-character replacement exactly the three marks are replaced;
    kana, letters and digits are kept.
  */
  lemma ReplaceVowelConnectionMarksOnlyMarks(track: Track, replaceTo: string)
    requires |replaceTo| == 1
    ensures var r := ReplaceVowelConnectionMarks(track, replaceTo);
            forall i, k :: 0 <= i < |track.notes| && 0 <= k < |track.notes[i].lyric| ==>
              && |r.notes[i].lyric| == |track.notes[i].lyric|
              && r.notes[i].lyric[k] == if IsVowelConnectionMark(track.notes[i].lyric[k]) then replaceTo[0] else track.notes[i].lyric[k]
  {
    forall i | 0 <= i < |track.notes| {
      ReplaceAllPointwise(track.notes[i].lyric, replaceTo, IsVowelConnectionMark);
    }
  }

  /**
    The range class rewrites ordinary lyrics: the hiragana `あ` and the
    letter `a` both become `ー`, where the marks-only class keeps them.
  */
  lemma RangeClassRewritesKana()
    ensures var t := Track("", [Note(60, 0, 480, "\U{3042}", None), Note(62, 480, 960, "a", None)], None);
            && ReplaceVowelConnections(t).notes[0].lyric == [LongVowelMark]
            && ReplaceVowelConnections(t).notes[1].lyric == [LongVowelMark]
            && ReplaceVowelConnectionMarks(t).notes[0].lyric == "\U{3042}"
            && ReplaceVowelConnectionMarks(t).notes[1].lyric == "a"
  {
    var t := Track("", [Note(60, 0, 480, "\U{3042}", None), Note(62, 480, 960, "a", None)], None);
    ReplaceAllPointwise("\U{3042}", [LongVowelMark], InVowelConnectionRange);
    ReplaceAllPointwise("a", [LongVowelMark], InVowelConnectionRange);
    ReplaceAllPointwise("\U{3042}", [LongVowelMark], IsVowelConnectionMark);
    ReplaceAllPointwise("a", [LongVowelMark], IsVowelConnectionMark);
  }
}
