/** The beat transcoder: dialogue events and their scanned syllables turned
    into UltraStar note and line-separator records, threading a beat cursor
    that restarts at every line's own start time. */
module Transcoder {
  import opened Wrappers
  import opened Text
  import opened Scanner
  import opened Seqs

  /** The fixed beat clock of the output. */
  const BEATS_PER_SECOND: nat := 20
  /** ASS times and karaoke durations are in hundredths of a second. */
  const CENTIS_PER_SECOND: nat := 100
  /** Placeholder pitch of every note (no automatic pitching). */
  const PITCH: int := 19

  datatype EventKind = Dialogue | Comment

  /** A parsed ASS event: its kind, start time in centiseconds (`h:mm:ss.cc`), raw text. */
  datatype Event = Event(kind: EventKind, start: int, text: string)

  /** One record of the notes section. */
  datatype Record =
    | Note(start: int, duration: int, pitch: int, text: string)
    | Separator(beat: int)

  /** `floor(seconds * BEATS_PER_SECOND)` for a time given in centiseconds, exactly. */
  function Beats(centis: int): (beats: int)
    ensures beats * CENTIS_PER_SECOND <= centis * BEATS_PER_SECOND < (beats + 1) * CENTIS_PER_SECOND
  {
    centis * BEATS_PER_SECOND / CENTIS_PER_SECOND
  }

  /** At 20 beats per second a beat is five centiseconds. */
  lemma BeatsAreFifths(centis: int)
    ensures Beats(centis) == centis / 5
    ensures centis >= 0 ==> Beats(centis) >= 0
  {
  }

  /** A note's duration is one beat short of its syllable; it is -1 exactly
      for syllables shorter than one beat. */
  lemma NoteDurationNegative(centis: nat)
    ensures Beats(centis) - 1 >= -1
    ensures Beats(centis) - 1 == -1 <==> centis < 5
  {
    BeatsAreFifths(centis);
  }

  /** Python's truth value of the sound: present and non-empty. */
  predicate Sounding(x: Syllable) {
    x.sound.Some? && x.sound.value != []
  }

  /** Beats the syllables advance the cursor by, in total. */
  function SumBeats(xs: seq<Syllable>): int
    decreases |xs|
  {
    if xs == [] then 0 else SumBeats(xs[..|xs| - 1]) + Beats(xs[|xs| - 1].centis)
  }

  function CountSounding(xs: seq<Syllable>): nat
    decreases |xs|
  {
    if xs == [] then 0
    else CountSounding(xs[..|xs| - 1]) + (if Sounding(xs[|xs| - 1]) then 1 else 0)
  }

  /** The note for one syllable at the given cursor, if it sounds. */
  function NoteFor(cursor: int, x: Syllable): seq<Record> {
    if Sounding(x) then [Note(cursor, Beats(x.centis) - 1, PITCH, x.sound.value)] else []
  }

  /** The notes of one line's syllables from the given cursor, and the cursor
      after the last syllable. */
  function EmitNotes(cursor: int, xs: seq<Syllable>): (r: (seq<Record>, int))
    ensures r.1 == cursor + SumBeats(xs)
    ensures |r.0| == CountSounding(xs)
    ensures forall i | 0 <= i < |r.0| :: r.0[i].Note? && r.0[i].pitch == PITCH && r.0[i].text != []
    decreases |xs|
  {
    if xs == [] then ([], cursor)
    else
      var x := xs[|xs| - 1];
      var (notes, c) := EmitNotes(cursor, xs[..|xs| - 1]);
      (notes + NoteFor(c, x), c + Beats(x.centis))
  }

  lemma {:induction false} SumBeatsAppend(a: seq<Syllable>, b: seq<Syllable>)
    ensures SumBeats(a + b) == SumBeats(a) + SumBeats(b)
    ensures CountSounding(a + b) == CountSounding(a) + CountSounding(b)
    decreases |b|
  {
    if b == [] {
      assert a + b == a;
    } else {
      assert (a + b)[..|a + b| - 1] == a + b[..|b| - 1];
      SumBeatsAppend(a, b[..|b| - 1]);
    }
  }

  /** The fold splits: the notes of a + b are those of a followed by those of b
      emitted from the cursor a left behind. */
  lemma {:induction false} EmitNotesAppend(cursor: int, a: seq<Syllable>, b: seq<Syllable>)
    ensures EmitNotes(cursor, a + b).0 ==
            EmitNotes(cursor, a).0 + EmitNotes(cursor + SumBeats(a), b).0
    decreases |b|
  {
    if b == [] {
      assert a + b == a;
    } else {
      assert (a + b)[..|a + b| - 1] == a + b[..|b| - 1];
      assert (a + b)[|a + b| - 1] == b[|b| - 1];
      EmitNotesAppend(cursor, a, b[..|b| - 1]);
      SumBeatsAppend(a, b[..|b| - 1]);
    }
  }

  /** A syllable that sounds yields the note at position "sounding syllables
      before it": it starts where the cursor stood before it, lasts one beat
      less than the syllable, has pitch 19 and the syllable's letters. */
  lemma NotePlacement(cursor: int, xs: seq<Syllable>, k: nat)
    requires k < |xs| && Sounding(xs[k])
    ensures var notes := EmitNotes(cursor, xs).0;
            CountSounding(xs[..k]) < |notes| &&
            notes[CountSounding(xs[..k])] ==
              Note(cursor + SumBeats(xs[..k]), Beats(xs[k].centis) - 1, PITCH, xs[k].sound.value)
  {
    var pre, post := xs[..k + 1], xs[k + 1..];
    assert xs == pre + post;
    EmitNotesAppend(cursor, pre, post);
    assert pre[..k] == xs[..k];
  }

  /** A syllable that does not sound yields no note but still moves the cursor. */
  lemma SilentSyllable(cursor: int, x: Syllable)
    requires !Sounding(x)
    ensures EmitNotes(cursor, [x]) == ([], cursor + Beats(x.centis))
  {
    assert [x][..0] == [];
  }

  /** The records of one line from its start beat and syllables: its notes,
      then a separator at the cursor the line ends on. */
  function LineRecords(startBeat: int, xs: seq<Syllable>): seq<Record> {
    var (notes, end) := EmitNotes(startBeat, xs);
    notes + [Separator(end)]
  }

  /** A line's records are its sounding syllables' notes, then one separator
      at the line's start beat plus all its syllables' beats. */
  lemma LineShape(startBeat: int, xs: seq<Syllable>)
    ensures var r := LineRecords(startBeat, xs);
            |r| == CountSounding(xs) + 1 &&
            r[|r| - 1] == Separator(startBeat + SumBeats(xs)) &&
            forall i | 0 <= i < |r| - 1 :: r[i].Note? && r[i].pitch == PITCH && r[i].text != []
  {
  }

  /** A line with no syllables gives only its separator, at its start beat. */
  lemma UntimedLine(startBeat: int)
    ensures LineRecords(startBeat, []) == [Separator(startBeat)]
  {
  }

  /** The records of one dialogue event: the cursor starts at the event's own
      start time, whatever the previous line ended on. */
  function TranscodeLine(e: Event): seq<Record> {
    LineRecords(Beats(e.start), Scan(e.text))
  }

  /** A dialogue line whose text holds no match of the timing pattern gives
      only its separator, at the beat the line starts on. */
  lemma UntimedEvent(e: Event)
    requires forall i | 0 <= i < |e.text| :: FindAt(e.text[i..]).None?
    ensures TranscodeLine(e) == [Separator(Beats(e.start))]
  {
    NoMatchScansEmpty(e.text);
    UntimedLine(Beats(e.start));
  }

  /** The Dialogue events, in input order. */
  function Dialogues(events: seq<Event>): (r: seq<Event>)
    ensures forall i | 0 <= i < |r| :: r[i].kind == Dialogue
    ensures (forall i | 0 <= i < |events| :: events[i].kind == Dialogue) ==> r == events
    ensures (forall i | 0 <= i < |events| :: events[i].kind == Comment) ==> r == []
    decreases |events|
  {
    if events == [] then []
    else
      var rest := Dialogues(events[1..]);
      assert forall i | 1 <= i < |events| :: events[1..][i - 1] == events[i];
      assert [events[0]] + events[1..] == events;
      (if events[0].kind == Dialogue then [events[0]] else []) + rest
  }

  /** One step of the filter: the first event, if it is a Dialogue, then the rest. */
  lemma DialoguesCons(events: seq<Event>)
    requires events != []
    ensures Dialogues(events) == (if events[0].kind == Dialogue then [events[0]] else []) + Dialogues(events[1..])
  {
  }

  lemma {:induction false} DialoguesAppend(a: seq<Event>, b: seq<Event>)
    ensures Dialogues(a + b) == Dialogues(a) + Dialogues(b)
    decreases |a|
  {
    if a == [] {
      assert a + b == b;
    } else {
      var ab := a + b;
      var head: seq<Event> := if a[0].kind == Dialogue then [a[0]] else [];
      assert ab[1..] == a[1..] + b && ab[0] == a[0];
      DialoguesAppend(a[1..], b);
      DialoguesCons(ab);
      DialoguesCons(a);
      Associate(head, Dialogues(a[1..]), Dialogues(b));
    }
  }

  /** The records of several dialogue lines, line after line. */
  function Lines(lines: seq<Event>): seq<Record> {
    ConcatMap(TranscodeLine, lines)
  }

  lemma LinesAppend(a: seq<Event>, b: seq<Event>)
    ensures Lines(a + b) == Lines(a) + Lines(b)
  {
    ConcatMapAppend(TranscodeLine, a, b);
  }

  /** The whole notes section: every Dialogue line's records in input order. */
  function Transcode(events: seq<Event>): seq<Record> {
    Lines(Dialogues(events))
  }

  /** Transcoding is line by line: Comment events contribute nothing, a
      Dialogue event exactly its own line's records, whatever came before. */
  lemma TranscodeAppend(a: seq<Event>, b: seq<Event>)
    ensures Transcode(a + b) == Transcode(a) + Transcode(b)
  {
    DialoguesAppend(a, b);
    LinesAppend(Dialogues(a), Dialogues(b));
  }

  lemma TranscodeSingle(e: Event)
    ensures e.kind == Comment ==> Transcode([e]) == []
    ensures e.kind == Dialogue ==> Transcode([e]) == TranscodeLine(e)
  {
    assert [e][1..] == [];
    assert Lines([e]) == Lines([]) + TranscodeLine(e) by {
      assert [e][..0] == [];
    }
  }

  /** The beats of the separators, in order. */
  function SeparatorBeats(rs: seq<Record>): seq<int>
    decreases |rs|
  {
    if rs == [] then []
    else SeparatorBeats(rs[..|rs| - 1]) + (if rs[|rs| - 1].Separator? then [rs[|rs| - 1].beat] else [])
  }

  lemma {:induction false} SeparatorBeatsAppend(a: seq<Record>, b: seq<Record>)
    ensures SeparatorBeats(a + b) == SeparatorBeats(a) + SeparatorBeats(b)
    decreases |b|
  {
    if b == [] {
      assert a + b == a;
    } else {
      assert (a + b)[..|a + b| - 1] == a + b[..|b| - 1];
      SeparatorBeatsAppend(a, b[..|b| - 1]);
    }
  }

  /** The beat a line's separator carries. */
  function LineEnd(e: Event): int {
    Beats(e.start) + SumBeats(Scan(e.text))
  }

  lemma {:induction false} NotesHaveNoSeparators(rs: seq<Record>)
    requires forall i | 0 <= i < |rs| :: rs[i].Note?
    ensures SeparatorBeats(rs) == []
    decreases |rs|
  {
    if rs != [] {
      NotesHaveNoSeparators(rs[..|rs| - 1]);
    }
  }

  lemma LineSeparator(startBeat: int, xs: seq<Syllable>)
    ensures SeparatorBeats(LineRecords(startBeat, xs)) == [startBeat + SumBeats(xs)]
  {
    var notes := EmitNotes(startBeat, xs).0;
    var end := startBeat + SumBeats(xs);
    NotesHaveNoSeparators(notes);
    SeparatorBeatsAppend(notes, [Separator(end)]);
    SingleSeparator(end);
  }

  /** A dialogue line's one separator sits at the beat where the line ends. */
  lemma EventSeparator(e: Event)
    ensures SeparatorBeats(TranscodeLine(e)) == [LineEnd(e)]
  {
    LineSeparator(Beats(e.start), Scan(e.text));
  }

  lemma SingleSeparator(beat: int)
    ensures SeparatorBeats([Separator(beat)]) == [beat]
  {
    assert [Separator(beat)][..0] == [];
  }

  /** Concatenating per-item record lists that each hold exactly one separator
      gives one separator per item, in item order. */
  lemma {:induction false} SeparatorsOfConcat<T>(f: T -> seq<Record>, g: T -> int, xs: seq<T>)
    requires forall i | 0 <= i < |xs| :: SeparatorBeats(f(xs[i])) == [g(xs[i])]
    ensures var beats := SeparatorBeats(ConcatMap(f, xs));
            |beats| == |xs| && forall k | 0 <= k < |xs| :: beats[k] == g(xs[k])
    decreases |xs|
  {
    if xs != [] {
      var init, last := xs[..|xs| - 1], xs[|xs| - 1];
      assert forall i | 0 <= i < |init| :: init[i] == xs[i];
      SeparatorsOfConcat(f, g, init);
      ConcatMapSnoc(f, xs);
      SeparatorBeatsAppend(ConcatMap(f, init), f(last));
    }
  }

  /** One separator per line, in order, the k-th at the beat the k-th line ends on. */
  lemma OneSeparatorPerLine(lines: seq<Event>)
    ensures var beats := SeparatorBeats(Lines(lines));
            |beats| == |lines| && forall k | 0 <= k < |lines| :: beats[k] == LineEnd(lines[k])
  {
    forall i | 0 <= i < |lines|
      ensures SeparatorBeats(TranscodeLine(lines[i])) == [LineEnd(lines[i])]
    {
      EventSeparator(lines[i]);
    }
    SeparatorsOfConcat(TranscodeLine, LineEnd, lines);
  }

  lemma TranscodeSeparators(events: seq<Event>)
    ensures var lines := Dialogues(events); var beats := SeparatorBeats(Transcode(events));
            |beats| == |lines| && forall k | 0 <= k < |lines| :: beats[k] == LineEnd(lines[k])
  {
    OneSeparatorPerLine(Dialogues(events));
  }

  /** An example line's text scanned: `la` held 200 centiseconds, then a bare
      tag of 50 centiseconds with a space before its `}`. */
  lemma WorkedExampleScan()
    ensures Scan("{\\k200}la{\\k50 }") == [Syllable(200, Some("la")), Syllable(50, None)]
  {
    var xs := [Syllable(200, Some("la")), Syllable(50, None)];
    assert NatToString(200) == "200" by {
      assert NatToString(20) == "20";
    }
    assert NatToString(50) == "50";
    assert Encode(xs[1..]) == "{\\k50 }" by {
      assert xs[1..][1..] == [];
    }
    assert Encode(xs) == "{\\k200}la{\\k50 }";
    assert Singable(xs[0]) by {
      assert AllSound("la");
    }
    ScanEncode(xs);
  }

  /** The records of those two syllables from beat 20. */
  lemma WorkedExampleRecords()
    ensures LineRecords(20, [Syllable(200, Some("la")), Syllable(50, None)]) ==
            [Note(20, 39, 19, "la"), Separator(70)]
  {
    var x0, x1 := Syllable(200, Some("la")), Syllable(50, None);
    var xs := [x0, x1];
    assert xs[..1] == [x0];
    assert [x0][..0] == [];
    assert Beats(200) == 40 && Beats(50) == 10;
    assert EmitNotes(20, [x0]) == (EmitNotes(20, []).0 + NoteFor(20, x0), 20 + Beats(200));
    assert EmitNotes(20, xs) == (EmitNotes(20, [x0]).0 + NoteFor(60, x1), 60 + Beats(50));
  }

  /** An example line: at 1.00 s, `la` held 2.00 s, then a 0.50 s gap. */
  lemma WorkedExample()
    ensures TranscodeLine(Event(Dialogue, 100, "{\\k200}la{\\k50 }")) ==
            [Note(20, 39, 19, "la"), Separator(70)]
  {
    WorkedExampleScan();
    WorkedExampleRecords();
    assert Beats(100) == 20;
  }
}
