/** How words are written for a shell, without the lexer's states: bare characters, escaped ones, single and
    double quotes, and blanks between words. The lexer reads every line that is so written as it is meant. */
module ShellGrammar {
  import opened Results
  import opened ShellWords

  /** A character inside double quotes, as it is or behind a backslash. */
  datatype Inner = Itself(c: char) | Behind(c: char)

  /** A part of a word. */
  datatype Part = Bare(c: char) | Escaped(c: char) | Singles(text: string) | Doubles(inner: seq<Inner>)

  predicate InnerLegal(inner: Inner) {
    inner.Itself? ==> inner.c != '"' && inner.c != '\\'
  }

  predicate Legal(part: Part) {
    match part
    case Bare(c) => c !in " \t\n\r" && c !in "'\"\\"
    case Escaped(_) => true
    case Singles(text) => '\'' !in text
    case Doubles(inner) => forall i :: 0 <= i < |inner| ==> InnerLegal(inner[i])
  }

  function InnerText(inner: seq<Inner>): string {
    if inner == [] then ""
    else
      var last := inner[|inner| - 1];
      InnerText(inner[..|inner| - 1]) + if last.Itself? then [last.c] else ['\\', last.c]
  }

  /** Inside double quotes a backslash stays unless a quote or a backslash follows it. */
  function InnerMeaning(inner: seq<Inner>): string {
    if inner == [] then ""
    else
      var last := inner[|inner| - 1];
      InnerMeaning(inner[..|inner| - 1]) + if last.Behind? && last.c != '"' && last.c != '\\' then ['\\', last.c] else [last.c]
  }

  function PartText(part: Part): string {
    match part
    case Bare(c) => [c]
    case Escaped(c) => ['\\', c]
    case Singles(text) => "'" + text + "'"
    case Doubles(inner) => "\"" + InnerText(inner) + "\""
  }

  function PartMeaning(part: Part): string {
    match part
    case Bare(c) => [c]
    case Escaped(c) => [c]
    case Singles(text) => text
    case Doubles(inner) => InnerMeaning(inner)
  }

  function WordText(parts: seq<Part>): string {
    if parts == [] then "" else WordText(parts[..|parts| - 1]) + PartText(parts[|parts| - 1])
  }

  function WordMeaning(parts: seq<Part>): string {
    if parts == [] then "" else WordMeaning(parts[..|parts| - 1]) + PartMeaning(parts[|parts| - 1])
  }

  /** A word and the blanks in front of it. */
  datatype Spaced = Spaced(gap: string, parts: seq<Part>)

  predicate IsGap(gap: string) {
    forall i :: 0 <= i < |gap| ==> gap[i] in " \t\n\r"
  }

  predicate WellWritten(line: seq<Spaced>) {
    forall i :: 0 <= i < |line| ==>
      && IsGap(line[i].gap) && (i > 0 ==> line[i].gap != "")
      && line[i].parts != [] && forall j :: 0 <= j < |line[i].parts| ==> Legal(line[i].parts[j])
  }

  function LineText(line: seq<Spaced>): string {
    if line == [] then ""
    else LineText(line[..|line| - 1]) + line[|line| - 1].gap + WordText(line[|line| - 1].parts)
  }

  function Meanings(line: seq<Spaced>): (r: seq<string>)
    ensures |r| == |line|
  {
    seq(|line|, i requires 0 <= i < |line| => WordMeaning(line[i].parts))
  }

  // ---------- Reading what is written ----------

  lemma Step(text: string, c: char)
    ensures Scan(text + [c]) == Take(Scan(text), c)
  {
    ScanSnoc(text, c);
  }

  /** The lexer can begin or go on with a word. */
  ghost predicate Ready(s: Lexer) {
    (s.mode.Between? && s.token == [] && !s.quoted) || s.mode.InWord?
  }

  /** The lexer has read `more` into the current word. */
  ghost predicate HasRead(s: Lexer, more: string, next: Lexer) {
    next.mode.InWord? && next.words == s.words && next.token == s.token + more && (next.token != [] || next.quoted)
  }

  lemma {:induction false} SinglesRead(text: string, inner: string)
    requires Ready(Scan(text)) && '\'' !in inner
    ensures var s, next := Scan(text), Scan(text + "'" + inner);
      next.mode.InSingle? && next.words == s.words && next.token == s.token + inner
    ensures Scan(text + "'" + inner).quoted == (Scan(text).quoted || inner != "")
  {
    hide Scan;
    if inner == "" {
      Step(text, '\'');
      assert text + "'" + inner == text + ['\''];
    } else {
      var n := |inner| - 1;
      SinglesRead(text, inner[..n]);
      Step(text + "'" + inner[..n], inner[n]);
      assert text + "'" + inner == text + "'" + inner[..n] + [inner[n]];
      assert inner[n] in inner;
    }
  }

  lemma {:induction false} DoublesRead(text: string, inner: seq<Inner>)
    requires Ready(Scan(text)) && forall i :: 0 <= i < |inner| ==> InnerLegal(inner[i])
    ensures var s, next := Scan(text), Scan(text + "\"" + InnerText(inner));
      next.mode.InDouble? && next.words == s.words && next.token == s.token + InnerMeaning(inner)
  {
    hide Scan;
    if inner == [] {
      Step(text, '"');
      assert text + "\"" + InnerText(inner) == text + ['"'];
    } else {
      var n := |inner| - 1;
      var last := inner[n];
      DoublesRead(text, inner[..n]);
      var before := text + "\"" + InnerText(inner[..n]);
      assert InnerLegal(last);
      if last.Itself? {
        Step(before, last.c);
        assert text + "\"" + InnerText(inner) == before + [last.c];
      } else {
        Step(before, '\\');
        Step(before + ['\\'], last.c);
        assert text + "\"" + InnerText(inner) == before + ['\\'] + [last.c];
      }
    }
  }

  lemma PartRead(text: string, part: Part)
    requires Ready(Scan(text)) && Legal(part)
    ensures HasRead(Scan(text), PartMeaning(part), Scan(text + PartText(part)))
  {
    hide Scan;
    match part {
      case Bare(c) =>
        Step(text, c);
      case Escaped(c) =>
        Step(text, '\\');
        Step(text + ['\\'], c);
        assert text + PartText(part) == text + ['\\'] + [c];
      case Singles(inner) =>
        SinglesRead(text, inner);
        Step(text + "'" + inner, '\'');
        assert text + PartText(part) == text + "'" + inner + ['\''];
      case Doubles(inner) =>
        DoublesRead(text, inner);
        Step(text + "\"" + InnerText(inner), '"');
        assert text + PartText(part) == text + "\"" + InnerText(inner) + ['"'];
    }
  }

  lemma {:induction false} WordRead(text: string, parts: seq<Part>)
    requires Ready(Scan(text)) && parts != [] && forall j :: 0 <= j < |parts| ==> Legal(parts[j])
    ensures HasRead(Scan(text), WordMeaning(parts), Scan(text + WordText(parts)))
  {
    hide Scan, PartText, PartMeaning, Legal;
    var n := |parts| - 1;
    if n == 0 {
      PartRead(text, parts[0]);
      assert parts[..0] == [];
      assert text + WordText(parts) == text + PartText(parts[0]);
    } else {
      WordRead(text, parts[..n]);
      PartRead(text + WordText(parts[..n]), parts[n]);
      assert text + WordText(parts) == text + WordText(parts[..n]) + PartText(parts[n]);
    }
  }

  /** The lexer stands behind the words: at the end of the last one, or between words. */
  ghost predicate Behold(s: Lexer, words: seq<string>) {
    || (s == Lexer(words, [], false, Between))
    || (s.mode.InWord? && (s.token != [] || s.quoted) && words == s.words + [s.token])
  }

  lemma {:induction false} GapRead(text: string, words: seq<string>, gap: string)
    requires Behold(Scan(text), words) && IsGap(gap) && gap != ""
    ensures Scan(text + gap) == Lexer(words, [], false, Between)
  {
    hide Scan;
    var n := |gap| - 1;
    if n == 0 {
      Step(text, gap[0]);
      assert text + gap == text + [gap[0]];
    } else {
      GapRead(text, words, gap[..n]);
      Step(text + gap[..n], gap[n]);
      assert text + gap == text + gap[..n] + [gap[n]];
    }
    assert gap[n] in " \t\n\r";
  }

  lemma LineStep(front: string, words: seq<string>, last: Spaced)
    requires Behold(Scan(front), words) && IsGap(last.gap) && (last.gap == "" ==> Scan(front) == Lexer(words, [], false, Between))
    requires last.parts != [] && forall j :: 0 <= j < |last.parts| ==> Legal(last.parts[j])
    ensures Behold(Scan(front + last.gap + WordText(last.parts)), words + [WordMeaning(last.parts)])
  {
    hide Scan, WordText, WordMeaning, Legal, IsGap;
    var spaced := front + last.gap;
    if last.gap == "" {
      assert spaced == front;
    } else {
      GapRead(front, words, last.gap);
    }
    WordRead(spaced, last.parts);
    assert [] + WordMeaning(last.parts) == WordMeaning(last.parts);
  }

  lemma {:induction false} LineRead(line: seq<Spaced>)
    requires WellWritten(line)
    ensures Behold(Scan(LineText(line)), Meanings(line))
    ensures line == [] ==> Scan(LineText(line)) == Lexer([], [], false, Between)
  {
    hide WordText, WordMeaning, Legal, IsGap;
    if line == [] {
      NothingScanned();
    } else {
      hide Scan, Behold;
      var n := |line| - 1;
      var front, last := line[..n], line[n];
      LineRead(front);
      LineStep(LineText(front), Meanings(front), last);
      assert Meanings(line) == Meanings(front) + [WordMeaning(last.parts)];
    }
  }

  lemma NothingScanned()
    ensures Scan("") == Lexer([], [], false, Between)
  {
  }

  /** Every line that is so written splits into the words that it means; blanks at the end do not matter. */
  lemma LineSplits(line: seq<Spaced>, gap: string)
    requires WellWritten(line) && IsGap(gap)
    ensures Split(LineText(line) + gap) == Success(Meanings(line))
  {
    hide Scan, WellWritten, IsGap, LineText;
    LineRead(line);
    if gap == "" {
      assert LineText(line) + gap == LineText(line);
    } else {
      GapRead(LineText(line), Meanings(line), gap);
    }
  }

  /** What begins a part of a word and does not end it. */
  datatype Open = OpenSingle(text: string) | OpenDouble(inner: seq<Inner>) | OpenDoubleEscape(inner: seq<Inner>) | OpenEscape

  predicate OpenLegal(open: Open) {
    match open
    case OpenSingle(text) => '\'' !in text
    case OpenDouble(inner) => forall i :: 0 <= i < |inner| ==> InnerLegal(inner[i])
    case OpenDoubleEscape(inner) => forall i :: 0 <= i < |inner| ==> InnerLegal(inner[i])
    case OpenEscape => true
  }

  function OpenText(open: Open): string {
    match open
    case OpenSingle(text) => "'" + text
    case OpenDouble(inner) => "\"" + InnerText(inner)
    case OpenDoubleEscape(inner) => "\"" + InnerText(inner) + "\\"
    case OpenEscape => "\\"
  }

  lemma SplitByMode(text: string)
    ensures Scan(text).mode.InSingle? || Scan(text).mode.InDouble? ==> Split(text) == Failure(NoClosingQuotation)
    ensures Scan(text).mode.EscapeInWord? || Scan(text).mode.EscapeInDouble? ==> Split(text) == Failure(NoEscapedCharacter)
  {
    hide Scan;
  }

  lemma OpenMode(text: string, open: Open)
    requires Ready(Scan(text)) && OpenLegal(open)
    ensures var mode := Scan(text + OpenText(open)).mode;
      match open
      case OpenSingle(_) => mode.InSingle?
      case OpenDouble(_) => mode.InDouble?
      case OpenDoubleEscape(_) => mode.EscapeInDouble?
      case OpenEscape => mode.EscapeInWord?
  {
    hide Scan, InnerText, InnerMeaning;
    match open {
      case OpenSingle(inner) =>
        SinglesRead(text, inner);
        assert text + OpenText(open) == text + "'" + inner;
      case OpenDouble(inner) =>
        DoublesRead(text, inner);
        assert text + OpenText(open) == text + "\"" + InnerText(inner);
      case OpenDoubleEscape(inner) =>
        DoublesRead(text, inner);
        Step(text + "\"" + InnerText(inner), '\\');
        assert text + OpenText(open) == text + "\"" + InnerText(inner) + ['\\'];
      case OpenEscape =>
        Step(text, '\\');
        assert text + OpenText(open) == text + ['\\'];
    }
  }

  /** A quote that is never closed, or a backslash at the very end, is refused behind whatever comes before. */
  lemma OpenRefused(text: string, open: Open)
    requires Ready(Scan(text)) && OpenLegal(open)
    ensures Split(text + OpenText(open)) ==
      Failure(if open.OpenSingle? || open.OpenDouble? then NoClosingQuotation else NoEscapedCharacter)
  {
    hide Scan, Split, OpenText;
    OpenMode(text, open);
    SplitByMode(text + OpenText(open));
  }

  /** The same for a line that begins as written and ends so. */
  lemma OpenLineRefused(line: seq<Spaced>, gap: string, open: Open)
    requires WellWritten(line) && IsGap(gap) && OpenLegal(open)
    ensures Split(LineText(line) + gap + OpenText(open)) ==
      Failure(if open.OpenSingle? || open.OpenDouble? then NoClosingQuotation else NoEscapedCharacter)
  {
    hide Scan, WellWritten, IsGap, OpenText, LineText;
    LineRead(line);
    if gap == "" {
      assert LineText(line) + gap == LineText(line);
    } else {
      GapRead(LineText(line), Meanings(line), gap);
    }
    OpenRefused(LineText(line) + gap, open);
  }
}
