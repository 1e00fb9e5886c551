/** The textual form of the notes section: one line per record, exactly as
    the converter formats it, and a reader for that form that recovers the
    records. */
module NotesFormat {
  import opened Wrappers
  import opened Text
  import opened Seqs
  import opened Transcoder

  /** `NOTE_LINE` and `SEP_LINE` filled in: `: start duration pitch sound \n`
      and `- beat \n`, each with a trailing space before the newline. */
  function RecordText(r: Record): string {
    match r
    case Note(start, duration, pitch, text) =>
      ": " + IntToString(start) + " " + IntToString(duration) + " " + IntToString(pitch) + " " + text + " \n"
    case Separator(beat) =>
      "- " + IntToString(beat) + " \n"
  }

  /** The notes text of a record sequence: its records' lines, in order. */
  function Render(rs: seq<Record>): string {
    ConcatMap(RecordText, rs)
  }

  lemma RenderAppend(a: seq<Record>, b: seq<Record>)
    ensures Render(a + b) == Render(a) + Render(b)
  {
    ConcatMapAppend(RecordText, a, b);
  }

  /** A record can be written and read back: a note's text holds neither the
      field separator nor the line separator. */
  predicate Readable(r: Record) {
    r.Note? ==> ' ' !in r.text && '\n' !in r.text
  }

  /** The space-separated fields of a record's line (the last one is the empty
      field after the trailing space). */
  function Fields(r: Record): seq<string> {
    match r
    case Note(start, duration, pitch, text) =>
      [":", IntToString(start), IntToString(duration), IntToString(pitch), text, ""]
    case Separator(beat) =>
      ["-", IntToString(beat), ""]
  }

  /** A line of the notes text, without its newline. */
  function RecordLine(r: Record): string {
    RecordText(r)[..|RecordText(r)| - 1]
  }

  lemma NoteJoin(start: string, duration: string, pitch: string, text: string)
    ensures JoinWith([":", start, duration, pitch, text, ""], ' ') ==
            ": " + start + " " + duration + " " + pitch + " " + text + " "
  {
    var fs := [":", start, duration, pitch, text, ""];
    assert fs[1..][1..][1..][1..][1..] == [""];
    assert fs[1..][1..][1..][1..] == [text, ""];
    assert fs[1..][1..][1..] == [pitch, text, ""];
    assert fs[1..][1..] == [duration, pitch, text, ""];
    assert fs[1..] == [start, duration, pitch, text, ""];
    assert JoinWith(fs[1..][1..][1..][1..], ' ') == text + " ";
    assert JoinWith(fs[1..][1..][1..], ' ') == pitch + " " + text + " ";
    assert JoinWith(fs[1..][1..], ' ') == duration + " " + pitch + " " + text + " ";
    assert JoinWith(fs[1..], ' ') == start + " " + duration + " " + pitch + " " + text + " ";
  }

  lemma SeparatorJoin(beat: string)
    ensures JoinWith(["-", beat, ""], ' ') == "- " + beat + " "
  {
    var fs := ["-", beat, ""];
    assert fs[1..][1..] == [""];
    assert fs[1..] == [beat, ""];
    assert JoinWith(fs[1..], ' ') == beat + " ";
  }

  /** Every record's text is one line: its fields joined by spaces, then a newline. */
  lemma RecordTextFields(r: Record)
    ensures RecordText(r) == JoinWith(Fields(r), ' ') + "\n"
    ensures RecordLine(r) == JoinWith(Fields(r), ' ')
    ensures Readable(r) ==> '\n' !in RecordLine(r)
    ensures Readable(r) ==> forall i | 0 <= i < |Fields(r)| :: ' ' !in Fields(r)[i]
  {
    match r
    case Note(start, duration, pitch, text) =>
      NoteJoin(IntToString(start), IntToString(duration), IntToString(pitch), text);
    case Separator(beat) =>
      SeparatorJoin(IntToString(beat));
  }

  /** The record a line's fields describe, if they describe one. */
  function ParseFields(fs: seq<string>): Option<Record> {
    if |fs| == 6 && fs[0] == ":" && fs[5] == "" then
      var start :- ParseInt(fs[1]);
      var duration :- ParseInt(fs[2]);
      var pitch :- ParseInt(fs[3]);
      Some(Note(start, duration, pitch, fs[4]))
    else if |fs| == 3 && fs[0] == "-" && fs[2] == "" then
      var beat :- ParseInt(fs[1]);
      Some(Separator(beat))
    else None
  }

  /** Reading one line (without its newline). */
  function ParseLine(line: string): Option<Record> {
    ParseFields(SplitOn(line, ' '))
  }

  function ParseLines(lines: seq<string>): Option<seq<Record>>
    decreases |lines|
  {
    if lines == [] then Some([])
    else
      var r :- ParseLine(lines[0]);
      var rest :- ParseLines(lines[1..]);
      Some([r] + rest)
  }

  /** Reading a notes text: newline-terminated lines, each a record. */
  function ParseNotes(s: string): Option<seq<Record>> {
    var lines := SplitOn(s, '\n');
    if lines[|lines| - 1] != [] then None
    else ParseLines(lines[..|lines| - 1])
  }

  /** A readable record's line reads back as the record. */
  lemma ParseRecordLine(r: Record)
    requires Readable(r)
    ensures ParseLine(RecordLine(r)) == Some(r)
  {
    RecordTextFields(r);
    SplitJoin(Fields(r), ' ');
    match r
    case Note(start, duration, pitch, text) =>
      IntToStringRoundTrip(start);
      IntToStringRoundTrip(duration);
      IntToStringRoundTrip(pitch);
    case Separator(beat) =>
      IntToStringRoundTrip(beat);
  }

  function RecordLines(rs: seq<Record>): seq<string>
    decreases |rs|
  {
    if rs == [] then [] else [RecordLine(rs[0])] + RecordLines(rs[1..])
  }

  lemma RenderCons(rs: seq<Record>)
    requires rs != []
    ensures Render(rs) == RecordLine(rs[0]) + "\n" + Render(rs[1..])
  {
    RecordTextFields(rs[0]);
    RenderAppend([rs[0]], rs[1..]);
    assert [rs[0]] + rs[1..] == rs;
    ConcatMapSnoc(RecordText, [rs[0]]);
    assert [rs[0]][..0] == [];
  }

  lemma JoinCons(line: string, rest: seq<string>, c: char)
    requires |rest| >= 1
    ensures JoinWith([line] + rest, c) == line + [c] + JoinWith(rest, c)
  {
    assert ([line] + rest)[1..] == rest;
  }

  /** The notes text is the records' lines joined by newlines, with a final newline. */
  lemma {:induction false} RenderAsLines(rs: seq<Record>)
    ensures |RecordLines(rs)| == |rs|
    ensures Render(rs) == JoinWith(RecordLines(rs) + [""], '\n')
    decreases |rs|
  {
    if rs != [] {
      RenderAsLines(rs[1..]);
      RenderCons(rs);
      var rest := RecordLines(rs[1..]) + [""];
      assert RecordLines(rs) + [""] == [RecordLine(rs[0])] + rest;
      JoinCons(RecordLine(rs[0]), rest, '\n');
    }
  }

  lemma {:induction false} ParseRecordLines(rs: seq<Record>)
    requires forall i | 0 <= i < |rs| :: Readable(rs[i])
    ensures ParseLines(RecordLines(rs)) == Some(rs)
    decreases |rs|
  {
    if rs != [] {
      var ls := RecordLines(rs);
      assert ls[0] == RecordLine(rs[0]) && ls[1..] == RecordLines(rs[1..]);
      ParseRecordLine(rs[0]);
      ParseRecordLines(rs[1..]);
      assert ParseLines(ls) == Some([rs[0]] + rs[1..]);
      assert [rs[0]] + rs[1..] == rs;
    }
  }

  lemma {:induction false} LinesHaveNoNewline(rs: seq<Record>)
    requires forall i | 0 <= i < |rs| :: Readable(rs[i])
    ensures forall i | 0 <= i < |RecordLines(rs) + [""]| :: '\n' !in (RecordLines(rs) + [""])[i]
    decreases |rs|
  {
    if rs != [] {
      RecordTextFields(rs[0]);
      LinesHaveNoNewline(rs[1..]);
      assert RecordLines(rs) + [""] == [RecordLine(rs[0])] + (RecordLines(rs[1..]) + [""]);
    }
  }

  /** Reading the notes text back gives exactly the records written. */
  lemma ParseRender(rs: seq<Record>)
    requires forall i | 0 <= i < |rs| :: Readable(rs[i])
    ensures ParseNotes(Render(rs)) == Some(rs)
  {
    RenderAsLines(rs);
    LinesHaveNoNewline(rs);
    var ls := RecordLines(rs) + [""];
    SplitJoin(ls, '\n');
    assert ls[..|ls| - 1] == RecordLines(rs);
    ParseRecordLines(rs);
  }

  lemma ExampleNoteText()
    ensures RecordText(Note(20, 39, 19, "la")) == ": 20 39 19 la \n"
  {
    assert NatToString(20) == "20";
    assert NatToString(39) == "39";
    assert NatToString(19) == "19";
  }

  lemma ExampleSeparatorText()
    ensures RecordText(Separator(70)) == "- 70 \n"
  {
    assert NatToString(70) == "70";
  }

  /** The notes text of an example line: the note `la` at beat 20 held 40
      beats, then the separator at beat 70. */
  lemma WorkedExampleText()
    ensures Render([Note(20, 39, 19, "la"), Separator(70)]) == ": 20 39 19 la \n- 70 \n"
  {
    var n, sep := Note(20, 39, 19, "la"), Separator(70);
    ExampleNoteText();
    ExampleSeparatorText();
    ConcatMapSnoc(RecordText, [n]);
    ConcatMapSnoc(RecordText, [n, sep]);
    assert [n][..0] == [] && [n, sep][..1] == [n];
  }

  lemma RenderSingle(r: Record)
    ensures Render([r]) == RecordText(r)
  {
    ConcatMapSnoc(RecordText, [r]);
    assert [r][..0] == [];
  }
}
