/** `parse_subtitles` as a program: the Dialogue events are filtered, each
    line's karaoke tags are scanned left to right into syllables, and the
    note and separator lines are appended to the notes text as the beat
    cursor advances. */
module Karaluxer {
  import opened Wrappers
  import opened Text
  import opened Seqs
  import opened Scanner
  import opened Transcoder
  import opened NotesFormat

  lemma EmitNotesSnoc(cursor: int, xs: seq<Syllable>, j: nat)
    requires j < |xs|
    ensures EmitNotes(cursor, xs[..j + 1]).0 ==
            EmitNotes(cursor, xs[..j]).0 + NoteFor(cursor + SumBeats(xs[..j]), xs[j])
  {
    assert xs[..j + 1][..j] == xs[..j];
  }

  lemma WriteNotesStep(startBeat: int, xs: seq<Syllable>, j: nat)
    requires j < |xs|
    ensures var cursor := startBeat + SumBeats(xs[..j]); var x := xs[j];
            startBeat + SumBeats(xs[..j + 1]) == cursor + Beats(x.centis) &&
            Render(EmitNotes(startBeat, xs[..j + 1]).0) ==
              Render(EmitNotes(startBeat, xs[..j]).0) +
              (if Sounding(x) then RecordText(Note(cursor, Beats(x.centis) - 1, PITCH, x.sound.value)) else "")
  {
    var cursor := startBeat + SumBeats(xs[..j]);
    var x := xs[j];
    assert xs[..j + 1][..j] == xs[..j];
    EmitNotesSnoc(startBeat, xs, j);
    RenderAppend(EmitNotes(startBeat, xs[..j]).0, NoteFor(cursor, x));
    if Sounding(x) {
      var note := Note(cursor, Beats(x.centis) - 1, PITCH, x.sound.value);
      assert NoteFor(cursor, x) == [note];
      RenderSingle(note);
    } else {
      assert NoteFor(cursor, x) == [];
    }
  }

  /** The note lines of one line's syllables, the cursor starting at the given
      beat; also the beat the cursor ends on. */
  method WriteNotes(startBeat: int, syllables: seq<Syllable>) returns (text: string, currentBeat: int)
    ensures text == Render(EmitNotes(startBeat, syllables).0)
    ensures currentBeat == startBeat + SumBeats(syllables)
  {
    text := "";
    currentBeat := startBeat;
    for j := 0 to |syllables|
      invariant currentBeat == startBeat + SumBeats(syllables[..j])
      invariant text == Render(EmitNotes(startBeat, syllables[..j]).0)
    {
      var x := syllables[j];
      var duration := Beats(x.centis);
      WriteNotesStep(startBeat, syllables, j);
      if Sounding(x) {
        text := text + RecordText(Note(currentBeat, duration - 1, PITCH, x.sound.value));
      }
      currentBeat := currentBeat + duration;
    }
    assert syllables[..|syllables|] == syllables;
  }

  /** The notes text of one dialogue line: its notes, then its separator. */
  method WriteLine(line: Event) returns (text: string)
    ensures text == Render(TranscodeLine(line))
  {
    var syllables := FindSyllables(line.text);
    var notes, currentBeat := WriteNotes(Beats(line.start), syllables);
    RenderAppend(EmitNotes(Beats(line.start), syllables).0, [Separator(currentBeat)]);
    RenderSingle(Separator(currentBeat));
    text := notes + RecordText(Separator(currentBeat));
  }

  lemma DialoguesStep(events: seq<Event>, i: nat)
    requires i < |events|
    ensures Dialogues(events[..i + 1]) ==
            Dialogues(events[..i]) + (if events[i].kind == Dialogue then [events[i]] else [])
  {
    DialoguesAppend(events[..i], [events[i]]);
    assert events[..i + 1] == events[..i] + [events[i]];
    assert [events[i]][1..] == [];
  }

  lemma LinesStep(lines: seq<Event>, k: nat)
    requires k < |lines|
    ensures Render(Lines(lines[..k + 1])) == Render(Lines(lines[..k])) + Render(TranscodeLine(lines[k]))
  {
    ConcatMapSnoc(TranscodeLine, lines[..k + 1]);
    assert lines[..k + 1][..k] == lines[..k];
    RenderAppend(Lines(lines[..k]), TranscodeLine(lines[k]));
  }

  /** `parse_subtitles` once the events are read: the notes text of every
      Dialogue line, in order. */
  method ParseSubtitles(events: seq<Event>) returns (notes: string)
    ensures notes == Render(Transcode(events))
  {
    notes := "";
    var dialogueLines := [];
    for i := 0 to |events|
      invariant dialogueLines == Dialogues(events[..i])
    {
      DialoguesStep(events, i);
      if events[i].kind == Dialogue {
        dialogueLines := dialogueLines + [events[i]];
      }
    }
    assert events[..|events|] == events;
    for k := 0 to |dialogueLines|
      invariant notes == Render(Lines(dialogueLines[..k]))
    {
      var text := WriteLine(dialogueLines[k]);
      LinesStep(dialogueLines, k);
      notes := notes + text;
    }
    assert dialogueLines[..|dialogueLines|] == dialogueLines;
  }

  /** Given syllables whose sounds are made of `[a-z|A-Z]` only, every note
      written has such a sound, so no note text holds a space or newline. */
  lemma {:induction false} NotesReadable(cursor: int, xs: seq<Syllable>)
    requires forall i | 0 <= i < |xs| :: xs[i].sound.Some? ==> AllSound(xs[i].sound.value)
    ensures forall i | 0 <= i < |EmitNotes(cursor, xs).0| :: AllSound(EmitNotes(cursor, xs).0[i].text)
    ensures forall i | 0 <= i < |EmitNotes(cursor, xs).0| :: Readable(EmitNotes(cursor, xs).0[i])
    decreases |xs|
  {
    if xs != [] {
      var init, x := xs[..|xs| - 1], xs[|xs| - 1];
      assert forall i | 0 <= i < |init| :: init[i] == xs[i];
      NotesReadable(cursor, init);
      var a := EmitNotes(cursor, init).0;
      var b := NoteFor(cursor + SumBeats(init), x);
      assert EmitNotes(cursor, xs).0 == a + b;
      if Sounding(x) {
        var w := x.sound.value;
        assert forall i | 0 <= i < |w| :: IsSoundChar(w[i]);
        assert AllSound(b[0].text);
        assert Readable(b[0]);
      }
      assert forall j | |a| <= j < |a| + |b| :: (a + b)[j] == b[j - |a|];
    }
  }

  lemma LineReadable(e: Event)
    ensures forall j | 0 <= j < |TranscodeLine(e)| :: Readable(TranscodeLine(e)[j])
  {
    var xs := Scan(e.text);
    NotesReadable(Beats(e.start), xs);
    var notes := EmitNotes(Beats(e.start), xs).0;
    var r := LineRecords(Beats(e.start), xs);
    assert forall j | 0 <= j < |notes| :: r[j] == notes[j];
  }

  /** The notes text written for any events reads back as exactly the records
      of the transcoded events: the text is an exact encoding of the records. */
  lemma NotesTextReadsBack(events: seq<Event>)
    ensures ParseNotes(Render(Transcode(events))) == Some(Transcode(events))
  {
    var lines := Dialogues(events);
    forall i, j | 0 <= i < |lines| && 0 <= j < |TranscodeLine(lines[i])|
      ensures Readable(TranscodeLine(lines[i])[j])
    {
      LineReadable(lines[i]);
    }
    ConcatMapAll(TranscodeLine, Readable, lines);
    ParseRender(Transcode(events));
  }
}
