/** The karaoke tag scanner: `re.findall(TIMING_REGEX, line.text)` followed by
    the per-match conversion into (duration in centiseconds, sound) pairs.

    TIMING_REGEX is the alternation
      group 1: `\{\\(?:k|kf|ko|K)[0-9]+\}[a-z|A-Z]*`   a timing tag and the sung letters after it
      group 2: `{\\(?:k|kf|ko|K)[0-9]+[^}]*\}`           a timing tag with more override text inside
    Both alternatives start at `{`, the marker choice and the digit run are forced
    by the text, so the backtracking matcher's choice at a position is: the first
    alternative with the longest letter run if it can match, else the second
    alternative ending at the first `}`. Matching at a position looks only
    forward, so the scan is defined on suffixes of the line. */
module Scanner {
  import opened Wrappers
  import opened Text
  import opened Seqs

  /** One karaoke syllable: its duration and, for the first tag shape, the
      letters that follow the tag (possibly empty); None for the second shape. */
  datatype Syllable = Syllable(centis: nat, sound: Option<string>)

  /** s opens with `{\` and one of the karaoke markers `k`, `kf`, `ko`, `K`
      occupying s[2..a] (the regex group `(?:k|kf|ko|K)`). */
  predicate Opens(s: string, a: nat) {
    2 < a <= |s| && s[0] == '{' && s[1] == '\\' &&
    ((a == 3 && (s[2] == 'k' || s[2] == 'K')) || (a == 4 && s[2] == 'k' && (s[3] == 'f' || s[3] == 'o')))
  }

  predicate DigitsBetween(s: string, lo: nat, hi: nat)
    requires lo <= hi <= |s|
  {
    forall i | lo <= i < hi :: IsDigit(s[i])
  }

  predicate SoundBetween(s: string, lo: nat, hi: nat)
    requires lo <= hi <= |s|
  {
    forall i | lo <= i < hi :: IsSoundChar(s[i])
  }

  /** No `}` in s[lo..hi] (the regex class `[^}]*`). */
  predicate UnclosedBetween(s: string, lo: nat, hi: nat)
    requires lo <= hi <= |s|
  {
    forall i | lo <= i < hi :: s[i] != '}'
  }

  /** Where the duration digits of a tag opening s begin, or 0 when s does not
      open with `{\`, a marker and a digit. */
  function DigitsStart(s: string): (a: nat)
    ensures a == 0 || (Opens(s, a) && a < |s| && IsDigit(s[a]))
    ensures forall a': nat | Opens(s, a') && a' < |s| && IsDigit(s[a']) :: a' == a
  {
    if |s| > 3 && s[0] == '{' && s[1] == '\\' && (s[2] == 'k' || s[2] == 'K') && IsDigit(s[3]) then 3
    else if |s| > 4 && s[0] == '{' && s[1] == '\\' && s[2] == 'k' && (s[3] == 'f' || s[3] == 'o') && IsDigit(s[4]) then 4
    else 0
  }

  /** End of the maximal run of digits starting at i (`[0-9]+` is greedy). */
  function DigitEnd(s: string, i: nat): (j: nat)
    requires i <= |s|
    ensures i <= j <= |s| && DigitsBetween(s, i, j) && (j == |s| || !IsDigit(s[j]))
    decreases |s| - i
  {
    if i == |s| || !IsDigit(s[i]) then i else DigitEnd(s, i + 1)
  }

  /** End of the maximal run of `[a-z|A-Z]` starting at i. */
  function SoundEnd(s: string, i: nat): (j: nat)
    requires i <= |s|
    ensures i <= j <= |s| && SoundBetween(s, i, j) && (j == |s| || !IsSoundChar(s[j]))
    decreases |s| - i
  {
    if i == |s| || !IsSoundChar(s[i]) then i else SoundEnd(s, i + 1)
  }

  /** Position of the first `}` at or after i. */
  function CloseFrom(s: string, i: nat): (r: Option<nat>)
    requires i <= |s|
    ensures r.Some? ==> i <= r.value < |s| && s[r.value] == '}' && UnclosedBetween(s, i, r.value)
    ensures r.None? ==> UnclosedBetween(s, i, |s|)
    decreases |s| - i
  {
    if i == |s| then None
    else if s[i] == '}' then Some(i)
    else CloseFrom(s, i + 1)
  }

  lemma {:induction false} DigitEndAt(s: string, i: nat, k: nat)
    requires i <= k <= |s| && DigitsBetween(s, i, k) && (k == |s| || !IsDigit(s[k]))
    ensures DigitEnd(s, i) == k
    decreases k - i
  {
    if i < k {
      DigitEndAt(s, i + 1, k);
    }
  }

  lemma {:induction false} SoundEndAt(s: string, i: nat, k: nat)
    requires i <= k <= |s| && SoundBetween(s, i, k) && (k == |s| || !IsSoundChar(s[k]))
    ensures SoundEnd(s, i) == k
    decreases k - i
  {
    if i < k {
      SoundEndAt(s, i + 1, k);
    }
  }

  /** TIMING_REGEX tried at the start of s, reported as `re.findall` reports a
      match: the pair (group 1, group 2), the group that did not take part empty. */
  function FindAt(s: string): (r: Option<(string, string)>)
    ensures r.Some? ==> (r.value.0 == []) != (r.value.1 == [])
    ensures r.Some? ==> var m := r.value.0 + r.value.1; 0 < |m| <= |s| && m == s[..|m|]
  {
    var a := DigitsStart(s);
    if a == 0 then None
    else
      var b := DigitEnd(s, a);
      if b < |s| && s[b] == '}' then
        Some((s[..SoundEnd(s, b + 1)], []))
      else
        match CloseFrom(s, b)
        case None => None
        case Some(k) => Some(([], s[..k + 1]))
  }

  /** The conditions under which the loop body of `parse_subtitles` converts a
      findall pair without raising: the `}`-split unpacks into exactly two
      pieces, the `\`-split has a second piece, and `int` gets a digit. */
  predicate Convertible(tagged: string, bare: string) {
    if tagged != [] then
      var parts := SplitOn(tagged, '}');
      |parts| == 2 && KeepDigits(parts[0]) != []
    else if bare != [] then
      var parts := SplitOn(bare, '\\');
      |parts| >= 2 && KeepDigits(parts[1]) != []
    else true
  }

  /** One findall pair to a syllable; None is the warning branch (both groups empty). */
  function ToSyllable(tagged: string, bare: string): Option<Syllable>
    requires Convertible(tagged, bare)
  {
    if tagged != [] then
      var parts := SplitOn(tagged, '}');
      Some(Syllable(DigitsValue(KeepDigits(parts[0])), Some(parts[1])))
    else if bare != [] then
      var parts := SplitOn(bare, '\\');
      Some(Syllable(DigitsValue(KeepDigits(parts[1])), None))
    else None
  }

  /** What an opening `{\`, marker and digit run contain: one digit at least,
      no `}` anywhere and no backslash after the first. */
  lemma OpeningFacts(s: string)
    requires DigitsStart(s) > 0
    ensures var a := DigitsStart(s); var b := DigitEnd(s, a);
            a < b && IsDigit(s[a]) &&
            (forall i | 0 <= i < b :: s[i] != '}') &&
            (forall i | 2 <= i < b :: s[i] != '\\')
  {
  }

  lemma CutAt(s: string, b: nat, n: nat)
    requires b < n <= |s|
    ensures s[..n] == s[..b] + [s[b]] + s[b + 1..n]
  {
  }

  lemma CutTwice(s: string, a: nat, e: nat)
    requires 2 <= a < e <= |s|
    ensures s[..e] == [s[0]] + [s[1]] + (s[2..a] + s[a..e])
  {
  }

  lemma TaggedConverts(s: string, b: nat, n: nat)
    requires DigitsStart(s) > 0 && b == DigitEnd(s, DigitsStart(s))
    requires b < n <= |s| && s[b] == '}' && SoundBetween(s, b + 1, n)
    ensures Convertible(s[..n], [])
    ensures SplitOn(s[..n], '}') == [s[..b], s[b + 1..n]]
    ensures AllSound(s[b + 1..n])
  {
    OpeningFacts(s);
    var a := DigitsStart(s);
    var timing, sound := s[..b], s[b + 1..n];
    CutAt(s, b, n);
    assert '}' !in timing by {
      assert forall i | 0 <= i < b :: timing[i] == s[i];
    }
    assert AllSound(sound) by {
      assert forall i | 0 <= i < |sound| :: sound[i] == s[b + 1 + i];
    }
    assert '}' !in sound by {
      assert forall i | 0 <= i < |sound| :: IsSoundChar(sound[i]);
    }
    SplitAtSeparator(timing, sound, '}');
    assert SplitOn(sound, '}') == [sound];
    assert IsDigit(timing[a]);
  }

  /** Splitting `{\` + head + tail at backslashes, head free of them: the second
      piece is head followed by the first piece of tail. */
  lemma BareSecondPiece(s: string, c: nat, e: nat)
    requires 2 <= c < e <= |s| && s[0] == '{' && s[1] == '\\' && '\\' !in s[2..c]
    ensures var parts := SplitOn(s[..e], '\\');
            |parts| >= 2 && parts[1] == s[2..c] + SplitOn(s[c..e], '\\')[0]
  {
    var head, tail := s[2..c], s[c..e];
    CutTwice(s, c, e);
    assert s[..e] == "{" + ['\\'] + (head + tail);
    SplitAtSeparator("{", head + tail, '\\');
    SplitKeepsHead(head, tail, '\\');
  }

  lemma BareConverts(s: string, e: nat)
    requires DigitsStart(s) > 0 && DigitEnd(s, DigitsStart(s)) < e <= |s|
    ensures Convertible([], s[..e])
  {
    OpeningFacts(s);
    var a := DigitsStart(s);
    var head := s[2..a + 1];
    assert '\\' !in head by {
      assert forall i | 0 <= i < |head| :: head[i] == s[i + 2];
    }
    BareSecondPiece(s, a + 1, e);
    var first := SplitOn(s[a + 1..e], '\\')[0];
    KeepDigitsAppend(head, first);
    assert IsDigit(head[a - 2]);
  }

  /** Every match converts without raising and never reaches the warning
      branch; a sound, when present, is made of `[a-z|A-Z]` only. */
  lemma MatchConverts(s: string)
    requires FindAt(s).Some?
    ensures Convertible(FindAt(s).value.0, FindAt(s).value.1)
    ensures ToSyllable(FindAt(s).value.0, FindAt(s).value.1).Some?
    ensures var x := ToSyllable(FindAt(s).value.0, FindAt(s).value.1).value;
            x.sound.Some? ==> AllSound(x.sound.value)
  {
    var a := DigitsStart(s);
    var b := DigitEnd(s, a);
    if b < |s| && s[b] == '}' {
      var n := SoundEnd(s, b + 1);
      assert FindAt(s).value == (s[..n], []);
      TaggedConverts(s, b, n);
    } else {
      var k := CloseFrom(s, b).value;
      assert FindAt(s).value == ([], s[..k + 1]);
      BareConverts(s, k + 1);
    }
  }

  /** `re.findall(TIMING_REGEX, text)` converted pair by pair: the syllables of
      one dialogue line, left to right, matches never overlapping. */
  function Scan(s: string): (r: seq<Syllable>)
    ensures |r| <= |s|
    ensures forall i | 0 <= i < |r| :: r[i].sound.Some? ==> AllSound(r[i].sound.value)
    decreases |s|
  {
    if s == [] then []
    else
      match FindAt(s)
      case None => Scan(s[1..])
      case Some((tagged, bare)) =>
        MatchConverts(s);
        var rest := Scan(s[|tagged| + |bare|..]);
        match ToSyllable(tagged, bare)
        case Some(x) => [x] + rest
        case None => rest
  }

  /** Where nothing matches, the scan moves on by one character. */
  lemma ScanSkips(s: string)
    requires s != [] && FindAt(s).None?
    ensures Scan(s) == Scan(s[1..])
  {
  }

  /** Text where no match starts anywhere yields no syllables at all: nothing
      outside a match ever reaches the output. */
  lemma {:induction false} NoMatchScansEmpty(s: string)
    requires forall i | 0 <= i < |s| :: FindAt(s[i..]).None?
    ensures Scan(s) == []
    decreases |s|
  {
    if s != [] {
      assert s[0..] == s;
      forall i | 0 <= i < |s[1..]|
        ensures FindAt(s[1..][i..]).None?
      {
        assert s[1..][i..] == s[i + 1..];
      }
      NoMatchScansEmpty(s[1..]);
      ScanSkips(s);
    }
  }

  /** Where a match starts, its syllable comes first and the scan resumes after it. */
  lemma ScanTakes(s: string)
    requires FindAt(s).Some?
    ensures Convertible(FindAt(s).value.0, FindAt(s).value.1)
    ensures ToSyllable(FindAt(s).value.0, FindAt(s).value.1).Some?
    ensures var m := FindAt(s).value;
            Scan(s) == [ToSyllable(m.0, m.1).value] + Scan(s[|m.0| + |m.1|..])
  {
    MatchConverts(s);
  }

  /** One attempt of the matcher at the start of s: how far it moves on and
      the syllables it yields on the way. */
  function StepAt(s: string): (r: (nat, seq<Syllable>))
    requires s != []
    ensures 0 < r.0 <= |s| && |r.1| <= 1
    ensures Scan(s) == r.1 + Scan(s[r.0..])
  {
    match FindAt(s)
    case None => (1, [])
    case Some((tagged, bare)) =>
      MatchConverts(s);
      (|tagged| + |bare|, [ToSyllable(tagged, bare).value])
  }

  /** The scan invariant carried past one attempt of the matcher: the
      syllables found so far, then the syllables from the new position on,
      are still all the syllables of the line. */
  lemma Advance(text: string, pos: nat, step: (nat, seq<Syllable>), done: seq<Syllable>, whole: seq<Syllable>,
                next: nat, found: seq<Syllable>)
    requires pos < |text| && step == StepAt(text[pos..])
    requires done + Scan(text[pos..]) == whole
    requires next == pos + step.0 && found == done + step.1
    ensures pos < next <= |text|
    ensures found + Scan(text[next..]) == whole
  {
    var s := text[pos..];
    SuffixOfSuffix(text, pos, step.0);
    assert s[step.0..] == text[next..];
    var after := Scan(text[next..]);
    assert Scan(s) == step.1 + after;
    Associate(done, step.1, after);
    assert found + after == done + Scan(s);
  }

  /** One attempt of the matcher at position pos: the syllable of the match
      starting there, if any, and the position of the next attempt. */
  method MatchAt(text: string, pos: nat, done: seq<Syllable>, ghost whole: seq<Syllable>)
      returns (next: nat, found: seq<Syllable>)
    requires pos < |text|
    requires done + Scan(text[pos..]) == whole
    ensures pos < next <= |text|
    ensures found + Scan(text[next..]) == whole
  {
    var step := StepAt(text[pos..]);
    next, found := pos + step.0, done + step.1;
    Advance(text, pos, step, done, whole, next, found);
  }

  /** The syllables of one line: every match of the timing pattern, found left
      to right, converted to its duration and sound. */
  method FindSyllables(text: string) returns (syllables: seq<Syllable>)
    ensures syllables == Scan(text)
  {
    syllables := [];
    var pos := 0;
    assert text[pos..] == text;
    while pos < |text|
      invariant 0 <= pos <= |text|
      invariant syllables + Scan(text[pos..]) == Scan(text)
      decreases |text| - pos
    {
      pos, syllables := MatchAt(text, pos, syllables, Scan(text));
    }
    assert text[pos..] == [];
  }

  // ---------------------------------------------------------------------------
  // The regex alternatives as languages, and FindAt as the matcher's choice

  /** t is in the language of the first alternative,
      `\{\\(?:k|kf|ko|K)[0-9]+\}[a-z|A-Z]*`. */
  ghost predicate InAlt1(t: string) {
    exists a: nat, b: nat | a < b < |t| ::
      Opens(t, a) && DigitsBetween(t, a, b) && t[b] == '}' && SoundBetween(t, b + 1, |t|)
  }

  /** t is in the language of the second alternative, `{\\(?:k|kf|ko|K)[0-9]+[^}]*\}`. */
  ghost predicate InAlt2(t: string) {
    exists a: nat, b: nat | a < b < |t| ::
      Opens(t, a) && DigitsBetween(t, a, b) && UnclosedBetween(t, b, |t| - 1) && t[|t| - 1] == '}'
  }

  /** Text of either alternative at the start of s begins with the tag opening
      DigitsStart finds; its digits lie inside the maximal digit run. */
  lemma OpeningOfMatch(s: string, n: nat, a: nat, b: nat)
    requires n <= |s| && a < b < n && Opens(s[..n], a) && DigitsBetween(s[..n], a, b)
    ensures a == DigitsStart(s) && a > 0
    ensures b <= DigitEnd(s, a)
  {
    assert Opens(s, a);
    assert IsDigit(s[..n][a]);
    var r := DigitEnd(s, a);
  }

  lemma Alt1Shape(s: string, n: nat)
    requires n <= |s| && InAlt1(s[..n])
    ensures var a := DigitsStart(s); var b := DigitEnd(s, a);
            a > 0 && b < n && s[b] == '}' && SoundBetween(s, b + 1, n)
  {
    var t := s[..n];
    var a: nat, b: nat :| a < b < |t| && Opens(t, a) && DigitsBetween(t, a, b) && t[b] == '}' && SoundBetween(t, b + 1, |t|);
    OpeningOfMatch(s, n, a, b);
    assert forall i | b + 1 <= i < n :: t[i] == s[i];
  }

  lemma Alt2Shape(s: string, n: nat)
    requires n <= |s| && InAlt2(s[..n])
    ensures var a := DigitsStart(s); var b := DigitEnd(s, a);
            a > 0 && b < n && s[n - 1] == '}' && UnclosedBetween(s, b, n - 1)
  {
    var t := s[..n];
    var a: nat, b': nat :| a < b' < |t| && Opens(t, a) && DigitsBetween(t, a, b') && UnclosedBetween(t, b', |t| - 1) && t[|t| - 1] == '}';
    OpeningOfMatch(s, n, a, b');
    var b := DigitEnd(s, a);
    assert s[n - 1] == t[n - 1];
    assert forall i | b <= i < n - 1 :: s[i] == t[i];
  }

  /** A group-1 match is in the first alternative's language and is the
      longest such text at this position (the letter run is greedy). */
  lemma FindAtTagged(s: string)
    requires FindAt(s).Some? && FindAt(s).value.0 != []
    ensures var n := |FindAt(s).value.0|;
            InAlt1(s[..n]) && forall n' | n < n' <= |s| :: !InAlt1(s[..n'])
  {
    var a := DigitsStart(s);
    var b := DigitEnd(s, a);
    var n := |FindAt(s).value.0|;
    var t := s[..n];
    assert forall i | 0 <= i < n :: t[i] == s[i];
    assert Opens(t, a) && DigitsBetween(t, a, b) && t[b] == '}' && SoundBetween(t, b + 1, |t|);
    assert InAlt1(t);
    forall n' | n < n' <= |s| ensures !InAlt1(s[..n']) {
      if InAlt1(s[..n']) {
        Alt1Shape(s, n');
      }
    }
  }

  /** Where the second shape is reported, no text of the first alternative starts. */
  lemma NoAlt1BeforeBare(s: string)
    requires FindAt(s).Some? && FindAt(s).value.1 != []
    ensures forall n' | 0 <= n' <= |s| :: !InAlt1(s[..n'])
  {
    forall n' | 0 <= n' <= |s| ensures !InAlt1(s[..n']) {
      if InAlt1(s[..n']) {
        Alt1Shape(s, n');
      }
    }
  }

  /** An opening, digits, then text free of `}` up to a `}`: second-alternative text. */
  lemma Alt2Text(s: string, a: nat, b: nat, k: nat)
    requires a < b <= k < |s| && Opens(s, a) && DigitsBetween(s, a, b)
    requires UnclosedBetween(s, b, k) && s[k] == '}'
    ensures InAlt2(s[..k + 1])
  {
    var t := s[..k + 1];
    assert Opens(t, a);
    assert DigitsBetween(t, a, b);
    assert UnclosedBetween(t, b, |t| - 1);
    assert t[|t| - 1] == '}';
  }

  lemma BareInAlt2(s: string)
    requires FindAt(s).Some? && FindAt(s).value.1 != []
    ensures InAlt2(s[..|FindAt(s).value.1|])
  {
    var a := DigitsStart(s);
    var b := DigitEnd(s, a);
    OpeningFacts(s);
    var k := CloseFrom(s, b).value;
    assert FindAt(s).value.1 == s[..k + 1];
    Alt2Text(s, a, b, k);
  }

  /** A group-2 match happens only where no text of the first alternative
      starts, and it is the one text of the second alternative there. */
  lemma FindAtBare(s: string)
    requires FindAt(s).Some? && FindAt(s).value.1 != []
    ensures forall n' | 0 <= n' <= |s| :: !InAlt1(s[..n'])
    ensures var n := |FindAt(s).value.1|;
            InAlt2(s[..n]) && forall n' | 0 <= n' <= |s| && n' != n :: !InAlt2(s[..n'])
  {
    NoAlt1BeforeBare(s);
    BareInAlt2(s);
    var n := |FindAt(s).value.1|;
    forall n' | 0 <= n' <= |s| && n' != n ensures !InAlt2(s[..n']) {
      if InAlt2(s[..n']) {
        Alt2Shape(s, n');
      }
    }
  }

  /** Where FindAt reports nothing, no text of either alternative starts. */
  lemma FindAtNone(s: string)
    requires FindAt(s).None?
    ensures forall n | 0 <= n <= |s| :: !InAlt1(s[..n]) && !InAlt2(s[..n])
  {
    forall n | 0 <= n <= |s| ensures !InAlt1(s[..n]) && !InAlt2(s[..n]) {
      if InAlt1(s[..n]) {
        Alt1Shape(s, n);
      }
      if InAlt2(s[..n]) {
        Alt2Shape(s, n);
      }
    }
  }

  // ---------------------------------------------------------------------------
  // Durations of the two shapes

  /** Group 1: the duration is the digits before the `}`, the sound what follows it. */
  lemma TaggedSyllable(timing: string, sound: string)
    requires '}' !in timing && AllSound(sound) && KeepDigits(timing) != []
    ensures Convertible(timing + "}" + sound, [])
    ensures ToSyllable(timing + "}" + sound, []) == Some(Syllable(DigitsValue(KeepDigits(timing)), Some(sound)))
  {
    assert '}' !in sound by {
      forall i | 0 <= i < |sound| ensures sound[i] != '}' {
        assert IsSoundChar(sound[i]);
      }
    }
    SplitAtSeparator(timing, sound, '}');
  }

  lemma EmptyFirstPiece(rest: string)
    requires rest == [] || rest[0] == '\\'
    ensures SplitOn(rest, '\\')[0] == []
  {
    if rest != [] {
      assert rest == [] + ['\\'] + rest[1..];
      SplitAtSeparator([], rest[1..], '\\');
    }
  }

  /** The second piece of `{\` + segment + rest split at backslashes is the
      segment, when the segment holds no backslash and rest starts with one. */
  lemma SecondPiece(segment: string, rest: string)
    requires '\\' !in segment && (rest == [] || rest[0] == '\\')
    ensures var parts := SplitOn("{\\" + segment + rest, '\\');
            |parts| >= 2 && parts[1] == segment
  {
    var bare := "{\\" + segment + rest;
    var after := SplitOn(segment + rest, '\\');
    assert bare == "{" + ['\\'] + (segment + rest);
    SplitAtSeparator("{", segment + rest, '\\');
    assert SplitOn(bare, '\\') == ["{"] + after;
    SplitKeepsHead(segment, rest, '\\');
    EmptyFirstPiece(rest);
    assert after[0] == segment + [];
  }

  /** Group 2: the duration is read from the text between the first and the
      second backslash only, every non-digit there deleted. */
  lemma BareSyllable(segment: string, rest: string)
    requires '\\' !in segment && (rest == [] || rest[0] == '\\')
    requires KeepDigits(segment) != []
    ensures Convertible([], "{\\" + segment + rest)
    ensures ToSyllable([], "{\\" + segment + rest) == Some(Syllable(DigitsValue(KeepDigits(segment)), None))
  {
    SecondPiece(segment, rest);
  }

  /** `{\k5 2}`: the space is deleted and the digits run together. */
  lemma SpacedDigitsJoin()
    ensures Scan("{\\k5 2}") == [Syllable(52, None)]
  {
    var s := "{\\k5 2}";
    SpacedDigitsMatch();
    SpacedDigitsConvert();
    ScanTakes(s);
    assert s[|s|..] == [];
  }

  lemma SpacedDigitsMatch()
    ensures FindAt("{\\k5 2}") == Some(([], "{\\k5 2}"))
  {
    var s := "{\\k5 2}";
    assert DigitsStart(s) == 3;
    assert DigitEnd(s, 3) == 4;
    assert CloseFrom(s, 4) == Some(6);
    assert s[..7] == s;
  }

  lemma SpacedDigitsConvert()
    ensures Convertible([], "{\\k5 2}") && ToSyllable([], "{\\k5 2}") == Some(Syllable(52, None))
  {
    assert "{\\k5 2}" == "{\\" + "k5 2}" + [];
    assert KeepDigits("k5 2}") == "52";
    BareSyllable("k5 2}", []);
    assert DigitsValue("52") == 52;
  }

  /** `{\k5\blur2}`: digits after the second backslash do not count. */
  lemma SecondOverrideIgnored()
    ensures Scan("{\\k5\\blur2}") == [Syllable(5, None)]
  {
    var s := "{\\k5\\blur2}";
    SecondOverrideMatch();
    SecondOverrideConvert();
    ScanTakes(s);
    assert s[|s|..] == [];
  }

  lemma SecondOverrideMatch()
    ensures FindAt("{\\k5\\blur2}") == Some(([], "{\\k5\\blur2}"))
  {
    var s := "{\\k5\\blur2}";
    assert DigitsStart(s) == 3;
    assert DigitEnd(s, 3) == 4;
    assert CloseFrom(s, 4) == Some(10);
    assert s[..11] == s;
  }

  lemma SecondOverrideConvert()
    ensures Convertible([], "{\\k5\\blur2}") && ToSyllable([], "{\\k5\\blur2}") == Some(Syllable(5, None))
  {
    assert "{\\k5\\blur2}" == "{\\" + "k5" + "\\blur2}";
    assert KeepDigits("k5") == "5";
    BareSyllable("k5", "\\blur2}");
    assert DigitsValue("5") == 5;
  }

  // ---------------------------------------------------------------------------
  // Text outside matches, and an encoder the scanner inverts

  /** Text containing no `{` contributes nothing and does not disturb what follows. */
  lemma {:induction false} PlainTextIgnored(plain: string, s: string)
    requires '{' !in plain
    ensures Scan(plain + s) == Scan(s)
    decreases |plain|
  {
    if plain != [] {
      var t := plain + s;
      assert t[0] != '{';
      assert FindAt(t).None?;
      assert t[1..] == plain[1..] + s;
      PlainTextIgnored(plain[1..], s);
    } else {
      assert plain + s == s;
    }
  }

  /** Syllables an ASS line can carry: a sound is letters and bars only. */
  predicate Singable(x: Syllable) {
    x.sound.Some? ==> AllSound(x.sound.value)
  }

  /** The tag text for one syllable: `{\kD}sound`, or `{\kD }` for no sound. */
  function EncodeSyllable(x: Syllable): string {
    "{\\k" + NatToString(x.centis) + (match x.sound case Some(w) => "}" + w case None => " }")
  }

  function Encode(xs: seq<Syllable>): string
    decreases |xs|
  {
    if xs == [] then [] else EncodeSyllable(xs[0]) + Encode(xs[1..])
  }

  lemma DigitsInside(pre: string, d: string, rest: string)
    requires AllDigits(d)
    ensures var s := pre + d + rest; var b := |pre| + |d|;
            DigitsBetween(s, |pre|, b) && s[b..] == rest && (rest != [] ==> s[b] == rest[0])
  {
    var s := pre + d + rest;
    assert forall i | |pre| <= i < |pre| + |d| :: s[i] == d[i - |pre|];
  }

  /** An encoded tag opens with `{\k`, its digits ending where the digit string does. */
  lemma EncodedOpening(d: string, rest: string)
    requires Canonical(d) && rest != [] && !IsDigit(rest[0])
    ensures var s := "{\\k" + d + rest;
            DigitsStart(s) == 3 && DigitEnd(s, 3) == 3 + |d| && s[3 + |d|..] == rest
    ensures KeepDigits("{\\k" + d) == d
  {
    var s := "{\\k" + d + rest;
    DigitsInside("{\\k", d, rest);
    assert s[0] == '{' && s[1] == '\\' && s[2] == 'k' && s[3] == d[0];
    DigitEndAt(s, 3, 3 + |d|);
    OpeningDigits(d);
  }

  lemma OpeningDigits(d: string)
    requires AllDigits(d)
    ensures KeepDigits("{\\k" + d) == d
  {
    KeepDigitsAppend("{\\k", d);
    assert KeepDigits("{\\k") == [];
  }

  lemma EncodingShapes(c: nat, w: string)
    ensures EncodeSyllable(Syllable(c, Some(w))) == "{\\k" + NatToString(c) + "}" + w
    ensures EncodeSyllable(Syllable(c, None)) == "{\\" + ("k" + NatToString(c) + " }") + []
  {
  }

  lemma SoundInside(pre: string, w: string, tail: string)
    requires AllSound(w)
    ensures var s := pre + w + tail; var n := |pre| + |w|;
            SoundBetween(s, |pre|, n) && s[..n] == pre + w && (tail != [] ==> s[n] == tail[0])
  {
    var s := pre + w + tail;
    assert forall i | |pre| <= i < |pre| + |w| :: s[i] == w[i - |pre|];
  }

  lemma EncodedTaggedFound(c: nat, w: string, tail: string)
    requires AllSound(w) && (tail == [] || tail[0] == '{')
    ensures var enc := EncodeSyllable(Syllable(c, Some(w)));
            FindAt(enc + tail) == Some((enc, []))
  {
    var d := NatToString(c);
    var enc := EncodeSyllable(Syllable(c, Some(w)));
    var s := enc + tail;
    var pre := "{\\k" + d + "}";
    var b := 3 + |d|;
    EncodingShapes(c, w);
    assert s == "{\\k" + d + ("}" + w + tail);
    EncodedOpening(d, "}" + w + tail);
    assert s == pre + w + tail;
    SoundInside(pre, w, tail);
    SoundEndAt(s, b + 1, b + 1 + |w|);
  }

  lemma EncodedTaggedConverts(c: nat, w: string)
    requires AllSound(w)
    ensures var enc := EncodeSyllable(Syllable(c, Some(w)));
            Convertible(enc, []) && ToSyllable(enc, []) == Some(Syllable(c, Some(w)))
  {
    var d := NatToString(c);
    EncodingShapes(c, w);
    OpeningDigits(d);
    ValueOfNatToString(c);
    TaggedSyllable("{\\k" + d, w);
  }

  lemma EncodedBareFound(c: nat, tail: string)
    ensures var enc := EncodeSyllable(Syllable(c, None));
            FindAt(enc + tail) == Some(([], enc))
  {
    var d := NatToString(c);
    var enc := EncodeSyllable(Syllable(c, None));
    var s := enc + tail;
    var b := 3 + |d|;
    assert s == "{\\k" + d + (" }" + tail);
    EncodedOpening(d, " }" + tail);
    assert s[b] == ' ' && s[b + 1] == '}';
    assert CloseFrom(s, b) == Some(b + 1);
    assert s[..b + 2] == enc;
  }

  lemma EncodedBareConverts(c: nat)
    ensures var enc := EncodeSyllable(Syllable(c, None));
            Convertible([], enc) && ToSyllable([], enc) == Some(Syllable(c, None))
  {
    var d := NatToString(c);
    var segment := "k" + d + " }";
    assert '\\' !in segment by {
      assert forall i | 0 <= i < |d| :: IsDigit(d[i]);
    }
    KeepDigitsAppend("k" + d, " }");
    KeepDigitsAppend("k", d);
    assert KeepDigits("k") == [] && KeepDigits(" }") == [];
    EncodingShapes(c, []);
    assert KeepDigits(segment) == d;
    ValueOfNatToString(c);
    BareSyllable(segment, []);
  }

  lemma EncodedMatch(x: Syllable, tail: string)
    requires Singable(x) && (tail == [] || tail[0] == '{')
    ensures var s := EncodeSyllable(x) + tail;
            FindAt(s).Some? && |FindAt(s).value.0| + |FindAt(s).value.1| == |EncodeSyllable(x)| &&
            Convertible(FindAt(s).value.0, FindAt(s).value.1) &&
            ToSyllable(FindAt(s).value.0, FindAt(s).value.1) == Some(x)
  {
    match x.sound
    case Some(w) =>
      EncodedTaggedFound(x.centis, w, tail);
      EncodedTaggedConverts(x.centis, w);
    case None =>
      EncodedBareFound(x.centis, tail);
      EncodedBareConverts(x.centis);
  }

  /** The scan reads an encoded syllable first and continues with what follows it. */
  lemma ScanEncodedHead(x: Syllable, tail: string)
    requires Singable(x) && (tail == [] || tail[0] == '{')
    ensures Scan(EncodeSyllable(x) + tail) == [x] + Scan(tail)
  {
    var enc := EncodeSyllable(x);
    var s := enc + tail;
    EncodedMatch(x, tail);
    ScanTakes(s);
    assert s[|enc|..] == tail;
  }

  lemma EncodingOpens(xs: seq<Syllable>)
    ensures xs == [] || Encode(xs)[0] == '{'
  {
  }

  /** Scanning the encoding of singable syllables gives them back. */
  lemma {:induction false} ScanEncode(xs: seq<Syllable>)
    requires forall i | 0 <= i < |xs| :: Singable(xs[i])
    ensures Scan(Encode(xs)) == xs
    decreases |xs|
  {
    if xs != [] {
      var tail := Encode(xs[1..]);
      EncodingOpens(xs[1..]);
      ScanEncodedHead(xs[0], tail);
      ScanEncode(xs[1..]);
      assert [xs[0]] + xs[1..] == xs;
    }
  }
}
