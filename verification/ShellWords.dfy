/** Splitting text into words as a POSIX shell does, with quotes and escapes, and joining words with
    plain blanks: exactly when joined words split into the same words again. */
module ShellWords {
  import opened Results

  datatype LexError = NoClosingQuotation | NoEscapedCharacter

  /** The blanks that separate words. */
  predicate IsSpace(c: char) { c == ' ' || c == '\t' || c == '\n' || c == '\r' }

  predicate IsSpecial(c: char) { c == '\'' || c == '"' || c == '\\' }

  // ---------- Stripping ----------

  /** The characters that Python strips from the ends of a string. */
  predicate IsStripped(c: char) {
    || '\U{0009}' <= c <= '\U{000D}' || '\U{001C}' <= c <= '\U{0020}' || c == '\U{0085}' || c == '\U{00A0}'
    || c == '\U{1680}' || '\U{2000}' <= c <= '\U{200A}' || c == '\U{2028}' || c == '\U{2029}'
    || c == '\U{202F}' || c == '\U{205F}' || c == '\U{3000}'
  }

  function StripStart(text: string): (r: string)
    ensures |r| <= |text| && (|r| == |text| ==> r == text)
    ensures r != [] ==> !IsStripped(r[0]) && r[|r| - 1] == text[|text| - 1]
  {
    if text != [] && IsStripped(text[0]) then StripStart(text[1..]) else text
  }

  function StripEnd(text: string): (r: string)
    ensures |r| <= |text| && (|r| == |text| ==> r == text)
    ensures r != [] ==> !IsStripped(r[|r| - 1]) && r[0] == text[0]
    ensures forall i :: 0 <= i < |r| ==> r[i] == text[i]
  {
    if text != [] && IsStripped(text[|text| - 1]) then StripEnd(text[..|text| - 1]) else text
  }

  function Strip(text: string): (r: string)
    ensures |r| <= |text| && (|r| == |text| ==> r == text)
    ensures r != [] ==> !IsStripped(r[0]) && !IsStripped(r[|r| - 1])
  {
    StripEnd(StripStart(text))
  }

  lemma {:induction false} StripStartMembers(text: string)
    ensures forall c :: c in StripStart(text) ==> c in text
  {
    if text != [] && IsStripped(text[0]) {
      StripStartMembers(text[1..]);
    }
  }

  lemma StripMembers(text: string)
    ensures forall c :: c in Strip(text) ==> c in text
  {
    StripStartMembers(text);
  }

  /** The same by code points: the ASCII control characters among them, the blanks of Unicode and NEL. */
  lemma StrippedAre(c: char)
    ensures var points :=
        {9, 10, 11, 12, 13, 28, 29, 30, 31, 32, 133, 160, 5760, 8192, 8193, 8194, 8195, 8196, 8197, 8198, 8199, 8200, 8201, 8202,
         8232, 8233, 8239, 8287, 12288};
      IsStripped(c) <==> c as int in points
  {
  }

  predicate AllStripped(text: string) {
    forall i :: 0 <= i < |text| ==> IsStripped(text[i])
  }

  lemma {:induction false} StripStartOf(a: string, text: string)
    requires AllStripped(a) && (text == [] || !IsStripped(text[0]))
    ensures StripStart(a + text) == text
  {
    hide IsStripped;
    if a == [] {
      assert a + text == text;
    } else {
      assert (a + text)[1..] == a[1..] + text && (a + text)[0] == a[0];
      StripStartOf(a[1..], text);
    }
  }

  lemma {:induction false} StripEndOf(text: string, b: string)
    requires AllStripped(b) && (text == [] || !IsStripped(text[|text| - 1]))
    ensures StripEnd(text + b) == text
  {
    hide IsStripped;
    if b == [] {
      assert text + b == text;
    } else {
      var n := |b| - 1;
      assert (text + b)[..|text| + n] == text + b[..n] && (text + b)[|text| + n] == b[n];
      StripEndOf(text, b[..n]);
    }
  }

  /** Stripping removes exactly the characters to be stripped at either end. */
  lemma StripBetween(a: string, text: string, b: string)
    requires AllStripped(a) && AllStripped(b) && text != [] && !IsStripped(text[0]) && !IsStripped(text[|text| - 1])
    ensures Strip(a + text + b) == text
  {
    hide IsStripped, AllStripped;
    assert a + text + b == a + (text + b) && (text + b)[0] == text[0];
    StripStartOf(a, text + b);
    StripEndOf(text, b);
  }

  lemma {:induction false} StripStartParts(text: string) returns (a: string)
    ensures AllStripped(a) && text == a + StripStart(text)
  {
    hide IsStripped;
    if text != [] && IsStripped(text[0]) {
      a := StripStartParts(text[1..]);
      a := [text[0]] + a;
    } else {
      a := [];
    }
  }

  lemma {:induction false} StripEndParts(text: string) returns (b: string)
    ensures AllStripped(b) && text == StripEnd(text) + b
  {
    hide IsStripped;
    if text != [] && IsStripped(text[|text| - 1]) {
      b := StripEndParts(text[..|text| - 1]);
      b := b + [text[|text| - 1]];
    } else {
      b := [];
    }
  }

  lemma StripParts(text: string) returns (a: string, b: string)
    ensures AllStripped(a) && AllStripped(b) && text == a + Strip(text) + b
  {
    hide IsStripped, StripStart, StripEnd, AllStripped;
    a := StripStartParts(text);
    b := StripEndParts(StripStart(text));
    assert a + (Strip(text) + b) == a + Strip(text) + b;
  }

  // ---------- Splitting ----------

  datatype Mode = Between | InWord | InSingle | InDouble | EscapeInWord | EscapeInDouble

  /** The words found so far, and the one being read. */
  datatype Lexer = Lexer(words: seq<string>, token: string, quoted: bool, mode: Mode)

  function Take(s: Lexer, c: char): Lexer {
    match s.mode
    case Between =>
      if IsSpace(c) then s
      else if c == '\\' then s.(mode := EscapeInWord)
      else if c == '\'' then s.(mode := InSingle)
      else if c == '"' then s.(mode := InDouble)
      else s.(token := [c], mode := InWord)
    case InWord =>
      if IsSpace(c) then
        (if s.token != [] || s.quoted then Lexer(s.words + [s.token], [], false, Between) else s.(mode := Between))
      else if c == '\\' then s.(mode := EscapeInWord)
      else if c == '\'' then s.(mode := InSingle)
      else if c == '"' then s.(mode := InDouble)
      else s.(token := s.token + [c])
    case InSingle =>
      if c == '\'' then s.(quoted := true, mode := InWord) else s.(quoted := true, token := s.token + [c])
    case InDouble =>
      if c == '"' then s.(quoted := true, mode := InWord)
      else if c == '\\' then s.(quoted := true, mode := EscapeInDouble)
      else s.(quoted := true, token := s.token + [c])
    case EscapeInWord =>
      s.(token := s.token + [c], mode := InWord)
    case EscapeInDouble =>
      s.(token := s.token + (if c != '\\' && c != '"' then ['\\', c] else [c]), mode := InDouble)
  }

  function Scan(text: string): Lexer {
    if text == [] then Lexer([], [], false, Between) else Take(Scan(text[..|text| - 1]), text[|text| - 1])
  }

  function Split(text: string): Result<seq<string>, LexError> {
    var s := Scan(text);
    match s.mode
    case Between => Success(s.words)
    case InWord => Success(if s.token != [] || s.quoted then s.words + [s.token] else s.words)
    case InSingle => Failure(NoClosingQuotation)
    case InDouble => Failure(NoClosingQuotation)
    case EscapeInWord => Failure(NoEscapedCharacter)
    case EscapeInDouble => Failure(NoEscapedCharacter)
  }

  /** Stripping the ends, then splitting. */
  function Read(text: string): Result<seq<string>, LexError> {
    Split(Strip(text))
  }

  function Join(words: seq<string>): string {
    if words == [] then ""
    else if |words| == 1 then words[0]
    else Join(words[..|words| - 1]) + " " + words[|words| - 1]
  }

  // ---------- How much a split can find ----------

  function Size(words: seq<string>): nat {
    if words == [] then 0 else Size(words[..|words| - 1]) + |words[|words| - 1]|
  }

  lemma SizeSnoc(words: seq<string>, word: string)
    ensures Size(words + [word]) == Size(words) + |word|
  {
    assert (words + [word])[..|words|] == words;
  }

  predicate HasSpecial(text: string) {
    exists i :: 0 <= i < |text| && IsSpecial(text[i])
  }

  lemma HasSpecialSnoc(text: string)
    requires text != []
    ensures HasSpecial(text) <==> HasSpecial(text[..|text| - 1]) || IsSpecial(text[|text| - 1])
  {
    var front := text[..|text| - 1];
    assert forall i :: 0 <= i < |front| ==> front[i] == text[i];
    if HasSpecial(front) {
      var i :| 0 <= i < |front| && IsSpecial(front[i]);
      assert IsSpecial(text[i]);
    }
  }

  /** What the lexer has taken up of the text: the characters of its words, one blank behind each
      finished word, and at least one character for quoting if there is any. */
  function TakenUp(s: Lexer, special: bool): nat {
    Size(s.words) + |s.token| + |s.words| + (if special then 1 else 0) + (if s.mode.EscapeInDouble? then 1 else 0)
  }

  ghost predicate Orderly(s: Lexer, special: bool) {
    && (s.mode.Between? ==> s.token == [] && !s.quoted)
    && (s.mode.InWord? ==> s.token != [] || s.quoted)
    && (!(s.mode.Between? || s.mode.InWord?) || s.quoted ==> special)
  }

  lemma {:induction false} Accounted(text: string)
    ensures TakenUp(Scan(text), HasSpecial(text)) <= |text|
    ensures Orderly(Scan(text), HasSpecial(text))
  {
    if text != [] {
      Accounted(text[..|text| - 1]);
      HasSpecialSnoc(text);
      TakeOne(Scan(text[..|text| - 1]), text[|text| - 1], HasSpecial(text[..|text| - 1]));
    }
  }

  lemma TakeOne(s: Lexer, c: char, special: bool)
    requires Orderly(s, special)
    ensures Orderly(Take(s, c), special || IsSpecial(c))
    ensures TakenUp(Take(s, c), special || IsSpecial(c)) <= TakenUp(s, special) + 1
  {
    hide Size;
    SizeSnoc(s.words, s.token);
  }

  lemma {:induction false} JoinSize(words: seq<string>)
    requires words != []
    ensures |Join(words)| == Size(words) + |words| - 1
  {
    if |words| == 1 {
      assert words[..0] == [];
    } else {
      JoinSize(words[..|words| - 1]);
    }
  }

  /** Text in which the joined words are found again is as long as their join, and has no quoting. */
  lemma FoundInFull(text: string, words: seq<string>)
    requires words != [] && Split(text) == Success(words) && |text| <= |Join(words)|
    ensures |text| == |Join(words)| && !HasSpecial(text)
  {
    Accounted(text);
    JoinSize(words);
    var s := Scan(text);
    if s.mode.InWord? {
      SizeSnoc(s.words, s.token);
    }
  }

  // ---------- Words that need no quoting ----------

  predicate Plain(word: string) {
    word != [] && forall i :: 0 <= i < |word| ==> !IsSpace(word[i]) && !IsSpecial(word[i])
  }

  predicate AllPlain(words: seq<string>) {
    forall i :: 0 <= i < |words| ==> Plain(words[i])
  }

  /** Without quoting, every word found is plain. */
  lemma {:induction false} ScanPlain(text: string)
    requires !HasSpecial(text)
    ensures var s := Scan(text);
      AllPlain(s.words) && !s.quoted && (s.mode.InWord? ==> Plain(s.token)) && (s.mode.Between? || s.mode.InWord?)
  {
    if text != [] {
      HasSpecialSnoc(text);
      ScanPlain(text[..|text| - 1]);
      Accounted(text[..|text| - 1]);
    }
  }

  lemma SplitPlain(text: string)
    requires !HasSpecial(text)
    ensures Split(text).Success? && AllPlain(Split(text).value)
  {
    ScanPlain(text);
  }

  /** Inside a word or quotes, a plain word is taken up letter by letter. */
  lemma {:induction false} ScanOn(text: string, word: string)
    requires Plain(word) && var mode := Scan(text).mode; mode.InWord? || mode.InSingle? || mode.InDouble?
    ensures Scan(text + word).mode == Scan(text).mode && Scan(text + word).words == Scan(text).words
    ensures Scan(text + word).token == Scan(text).token + word
    ensures Scan(text).mode.InWord? ==> Scan(text + word).quoted == Scan(text).quoted
  {
    var n := |word| - 1;
    assert (text + word)[..|text| + n] == text + word[..n];
    assert word == word[..n] + [word[n]];
    if n > 0 {
      ScanOn(text, word[..n]);
    } else {
      assert text + word[..0] == text;
    }
  }

  lemma ScanSnoc(text: string, c: char)
    ensures Scan(text + [c]) == Take(Scan(text), c)
  {
    hide Take;
    assert (text + [c])[..|text|] == text;
  }

  lemma ScanWord(text: string, word: string)
    requires Scan(text).mode.Between? && Scan(text).token == [] && Plain(word)
    ensures Scan(text + word) == Scan(text).(token := word, mode := InWord)
  {
    hide Scan;
    var first, rest := text + [word[0]], word[1..];
    ScanSnoc(text, word[0]);
    if rest == [] {
      assert word == [word[0]];
    } else {
      assert forall i :: 0 <= i < |rest| ==> rest[i] == word[i + 1];
      ScanOn(first, rest);
      assert first + rest == text + word && [word[0]] + rest == word;
    }
  }

  lemma {:induction false} ScanJoin(words: seq<string>)
    requires words != [] && AllPlain(words)
    ensures Scan(Join(words)) == Lexer(words[..|words| - 1], words[|words| - 1], false, InWord)
  {
    var n := |words| - 1;
    if n == 0 {
      ScanWord("", words[0]);
      assert "" + words[0] == words[0];
    } else {
      ScanJoin(words[..n]);
      var front := Join(words[..n]) + " ";
      assert front[..|front| - 1] == Join(words[..n]);
      assert words[..n] == words[..n][..n - 1] + [words[..n][n - 1]];
      ScanWord(front, words[n]);
    }
  }

  /** Joined words split into the same words exactly when none of them needs quoting. */
  lemma JoinSplitIff(words: seq<string>)
    ensures Split(Join(words)) == Success(words) <==> AllPlain(words)
  {
    hide Join;
    if words == [] {
      NothingJoined();
    } else {
      if Split(Join(words)) == Success(words) {
        FoundInFull(Join(words), words);
        SplitPlain(Join(words));
      }
      if AllPlain(words) {
        ScanJoin(words);
        assert words == words[..|words| - 1] + [words[|words| - 1]];
      }
    }
  }

  lemma NothingJoined()
    ensures Join([]) == "" && Read("") == Split("") == Success([])
  {
  }

  // ---------- With the ends stripped ----------

  /** The first and the last word do not begin or end with a character that is stripped. */
  predicate SharpEnds(words: seq<string>) {
    words != [] && words[0] != [] && words[|words| - 1] != [] ==>
      var last := words[|words| - 1]; !IsStripped(words[0][0]) && !IsStripped(last[|last| - 1])
  }

  /** Words that are printed with blanks between them and read back the same. */
  predicate Survive(words: seq<string>) {
    AllPlain(words) && SharpEnds(words)
  }

  lemma {:induction false} JoinEnds(words: seq<string>)
    requires words != [] && AllPlain(words)
    ensures var text, last := Join(words), words[|words| - 1];
      text != [] && text[0] == words[0][0] && text[|text| - 1] == last[|last| - 1]
  {
    if |words| > 1 {
      JoinEnds(words[..|words| - 1]);
    }
  }

  lemma StripNothing(text: string)
    requires text != [] && !IsStripped(text[0]) && !IsStripped(text[|text| - 1])
    ensures Strip(text) == text
  {
    hide IsStripped;
  }

  /** Printed words read back as the same words exactly when they survive. */
  lemma ReadsBackIff(words: seq<string>)
    ensures Read(Join(words)) == Success(words) <==> Survive(words)
  {
    hide Join, Split, IsStripped, Strip, Plain;
    var text := Join(words);
    if words == [] {
      NothingJoined();
    } else {
      JoinSplitIff(words);
      if Read(text) == Success(words) {
        FoundInFull(Strip(text), words);
        assert Strip(text) == text;
        JoinEnds(words);
      }
      if Survive(words) {
        JoinEnds(words);
        FirstWordHasLetters(words);
        StripNothing(text);
      }
    }
  }

  lemma FirstWordHasLetters(words: seq<string>)
    requires words != [] && AllPlain(words)
    ensures words[0] != [] && words[|words| - 1] != []
  {
  }

  lemma PlainConcat(words: seq<string>, more: seq<string>)
    requires AllPlain(more)
    ensures AllPlain(words + more) <==> AllPlain(words)
  {
    hide Plain;
    if AllPlain(words + more) {
      assert forall i :: 0 <= i < |words| ==> (words + more)[i] == words[i];
    }
  }

  lemma PlainHaveLetters(words: seq<string>)
    ensures AllPlain(words) ==> forall i :: 0 <= i < |words| ==> words[i] != []
  {
  }

  /** What surviving words need to stay so behind other words. */
  lemma SurviveConcat(words: seq<string>, more: seq<string>)
    requires Survive(more)
    ensures Survive(words + more) <==>
      && AllPlain(words)
      && (words != [] ==>
            var last := words[|words| - 1];
            !IsStripped(words[0][0]) && (more == [] ==> !IsStripped(last[|last| - 1])))
  {
    hide AllPlain, IsStripped;
    PlainConcat(words, more);
    PlainHaveLetters(words);
    PlainHaveLetters(more);
    if words == [] {
      assert words + more == more;
    } else if AllPlain(words) {
      assert (words + more)[0] == words[0];
      if more == [] {
        assert words + more == words;
      } else {
        assert (words + more)[|words + more| - 1] == more[|more| - 1];
      }
    }
  }

  /** Text without quotes and backslashes splits into words that survive. */
  lemma UnquotedSurvives(text: string)
    requires !HasSpecial(text)
    ensures Read(text).Success? && Survive(Read(text).value)
  {
    hide IsStripped;
    var s := Strip(text);
    StripMembers(text);
    forall i | 0 <= i < |s| ensures !IsSpecial(s[i]) {
      assert s[i] in s && s[i] in text;
      var j :| 0 <= j < |text| && text[j] == s[i];
    }
    SplitPlain(s);
    if s == [] {
      NothingJoined();
    } else {
      SpacesAreStripped();
      FirstAndLast(s);
    }
  }

  lemma SpacesAreStripped()
    ensures forall c :: IsSpace(c) ==> IsStripped(c)
  {
  }

  /** Unquoted text that begins and ends with a letter begins its first word and ends its last one with it. */
  lemma FirstAndLast(text: string)
    requires text != [] && !HasSpecial(text) && !IsSpace(text[0]) && !IsSpace(text[|text| - 1])
    ensures Split(text).Success? && Split(text).value != []
    ensures var words := Split(text).value; var last := words[|words| - 1];
      words[0] != [] && last != [] && words[0][0] == text[0] && last[|last| - 1] == text[|text| - 1]
  {
    FirstLetter(text);
    HasSpecialSnoc(text);
    ScanPlain(text);
    ScanPlain(text[..|text| - 1]);
  }

  lemma {:induction false} FirstLetter(text: string)
    requires text != [] && !HasSpecial(text) && !IsSpace(text[0])
    ensures var s := Scan(text);
      if s.words == [] then s.mode.InWord? && s.token != [] && s.token[0] == text[0]
      else s.words[0] != [] && s.words[0][0] == text[0]
  {
    var n := |text| - 1;
    HasSpecialSnoc(text);
    if n == 0 {
      assert text[..0] == [];
    } else {
      FirstLetter(text[..n]);
      ScanPlain(text[..n]);
    }
  }

  // ---------- Text that is joined from its own words ----------

  /** The separators are single blanks, none of them in front. */
  predicate SingleBlanks(text: string) {
    forall i :: 0 <= i < |text| && IsSpace(text[i]) ==> text[i] == ' ' && i > 0 && !IsSpace(text[i - 1])
  }

  /** Text without quoting, with sharp ends and single blanks. */
  predicate Normal(text: string) {
    !HasSpecial(text) && Strip(text) == text && SingleBlanks(text)
  }

  lemma JoinSnoc(words: seq<string>, word: string)
    requires words != []
    ensures Join(words + [word]) == Join(words) + " " + word
  {
    assert (words + [word])[..|words|] == words;
  }

  lemma JoinGrow(words: seq<string>, word: string, c: char)
    ensures Join(words + [word + [c]]) == Join(words + [word]) + [c]
  {
    if words != [] {
      JoinSnoc(words, word);
      JoinSnoc(words, word + [c]);
    }
  }

  lemma {:induction false} JoinSingleBlanks(words: seq<string>)
    requires AllPlain(words)
    ensures SingleBlanks(Join(words))
    ensures words != [] ==> var text, last := Join(words), words[|words| - 1]; text != [] && text[|text| - 1] == last[|last| - 1]
  {
    if words != [] {
      var n := |words| - 1;
      JoinSingleBlanks(words[..n]);
      assert Plain(words[n]);
    }
  }

  /** What has been read of text with single blanks is its words, joined. */
  lemma {:induction false} ScanRejoins(text: string)
    requires !HasSpecial(text) && SingleBlanks(text)
    ensures var s := Scan(text);
      || text == []
      || (s.mode.InWord? && Join(s.words + [s.token]) == text && !IsSpace(text[|text| - 1]))
      || (s.mode.Between? && s.words != [] && Join(s.words) + " " == text)
  {
    hide Take, Join, HasSpecial;
    if text != [] {
      var n := |text| - 1;
      var front := text[..n];
      HasSpecialSnoc(text);
      assert forall i :: 0 <= i < n ==> front[i] == text[i];
      assert SingleBlanks(front);
      ScanRejoins(front);
      ScanPlain(front);
      Accounted(front);
      ScanRejoinsOn(Scan(front), front, text[n]);
      assert text == front + [text[n]];
    }
  }

  lemma ScanRejoinsOn(s: Lexer, front: string, c: char)
    requires !IsSpecial(c) && SingleBlanks(front + [c]) && !s.quoted
    requires s.mode.InWord? ==> s.token != []
    requires front == [] ==> s == Lexer([], [], false, Between)
    requires front == [] || (s.mode.InWord? && Join(s.words + [s.token]) == front)
      || (s.mode.Between? && s.words != [] && Join(s.words) + " " == front)
    ensures var next, text := Take(s, c), front + [c];
      || (next.mode.InWord? && Join(next.words + [next.token]) == text && !IsSpace(c))
      || (next.mode.Between? && next.words != [] && Join(next.words) + " " == text)
  {
    hide Join, HasSpecial;
    var text := front + [c];
    assert text[|front|] == c && (front != [] ==> text[|front| - 1] == front[|front| - 1]);
    if s.mode.InWord? {
      JoinGrow(s.words, s.token, c);
    } else if front == [] {
      assert [] + [[c]] == [[c]] && [] + [c] == [c];
      JoinOne([c]);
    } else {
      JoinSnoc(s.words, [c]);
    }
  }

  lemma JoinOne(word: string)
    ensures Join([word]) == word
  {
  }

  /** Text is joined from the words read in it exactly when it is normal. */
  lemma RejoinsIff(text: string)
    ensures Read(text).Success? && Join(Read(text).value) == text <==> Normal(text)
  {
    hide Join, Scan, IsStripped, HasSpecial;
    if Read(text).Success? && Join(Read(text).value) == text {
      var words := Read(text).value;
      if words == [] {
        NothingJoined();
        NothingSpecial();
      } else {
        FoundInFull(Strip(text), words);
        assert Strip(text) == text;
        SplitPlain(text);
        JoinSingleBlanks(words);
      }
    }
    if Normal(text) {
      ScanRejoins(text);
      NothingJoined();
      ScanPlain(text);
      Accounted(text);
      SpacesAreStripped();
      if text != [] {
        assert !IsSpace(text[|text| - 1]);
      }
    }
  }

  lemma NothingSpecial()
    ensures !HasSpecial("")
  {
  }

  // ---------- A plain word at the end ----------

  lemma EscapedBy(text: string)
    requires Scan(text).mode.EscapeInWord?
    ensures text != [] && text[|text| - 1] == '\\'
  {
  }

  /** Behind a blank, a plain word at the end is the last word read, unless a backslash escapes the blank:
      then the last word ends with both. */
  lemma LastWordSplit(front: string, word: string)
    requires Plain(word) && Split(front + " " + word).Success?
    ensures var words := Split(front + " " + word).value;
      && words != []
      && var last := words[|words| - 1];
         last == word || (front != [] && front[|front| - 1] == '\\' && last != [] && last[|last| - 1] == word[|word| - 1])
  {
    hide HasSpecial;
    var spaced := front + " ";
    assert spaced[..|front|] == front;
    Accounted(front);
    var s := Scan(front);
    if s.mode.Between? || s.mode.InWord? {
      ScanWord(spaced, word);
    } else {
      ScanOn(spaced, word);
      if s.mode.EscapeInWord? {
        EscapedBy(front);
      }
    }
  }

  lemma {:induction false} StripStartTail(front: string, word: string)
    requires word != [] && !IsStripped(word[0])
    ensures StripStart(front + " " + word) == if StripStart(front) == [] then word else StripStart(front) + " " + word
  {
    var text := front + " " + word;
    if front == [] {
      assert text[1..] == word;
    } else if IsStripped(front[0]) {
      assert text[1..] == front[1..] + " " + word;
      StripStartTail(front[1..], word);
    }
  }

  /** The same with the ends stripped, for a word that keeps its ends. */
  lemma LastWordRead(front: string, word: string)
    requires Survive([word]) && Read(front + " " + word).Success?
    ensures var words := Read(front + " " + word).value;
      && words != []
      && var last := words[|words| - 1];
         last == word || (front != [] && front[|front| - 1] == '\\' && last != [] && last[|last| - 1] == word[|word| - 1])
  {
    hide IsStripped, Split, Plain;
    assert Plain([word][0]);
    OneWord(word);
    StripStartTail(front, word);
    var start := StripStart(front);
    if start == [] {
      ReadsBackIff([word]);
      JoinOne(word);
      EndKept(word);
      assert Strip(front + " " + word) == word == Strip(word);
    } else {
      EndKept(start + " " + word);
      LastWordSplit(start, word);
    }
  }

  lemma OneWord(word: string)
    requires Survive([word])
    ensures word != [] && Plain(word) && !IsStripped(word[0]) && !IsStripped(word[|word| - 1])
  {
    assert Plain([word][0]);
  }

  lemma EndKept(text: string)
    requires text != [] && !IsStripped(text[|text| - 1])
    ensures StripEnd(text) == text
    ensures !IsStripped(text[0]) ==> Strip(text) == text
  {
    hide IsStripped;
  }

  /** Quoting is lost: a quoted word with a blank in it is printed bare and reads back as two. */
  lemma QuotedBlankFallsApart(a: string, b: string)
    requires Survive([a, b])
    ensures Read("'" + (a + " " + b) + "'") == Success([a + " " + b])
    ensures Join([a + " " + b]) == Join([a, b]) && Read(Join([a, b])) == Success([a, b])
  {
    hide IsStripped, Split, Strip, Read;
    ReadsBackIff([a, b]);
    assert [a, b][..1] == [a];
    var inner := a + " " + b;
    assert Plain([a, b][0]) && Plain([a, b][1]);
    forall i | 0 <= i < |inner| ensures inner[i] != '\'' {
      assert i < |a| ==> inner[i] == a[i];
      assert i > |a| ==> inner[i] == b[i - |a| - 1];
    }
    QuotedReads(inner);
  }

  lemma QuotedReads(inner: string)
    requires '\'' !in inner && inner != []
    ensures Read("'" + inner + "'") == Success([inner])
  {
    hide IsStripped, Strip, Take;
    var text := "'" + inner + "'";
    assert text[0] == '\'' && text[|text| - 1] == '\'';
    QuoteIsKept();
    StripNothing(text);
    ScanQuoted(inner);
    assert text[..|text| - 1] == "'" + inner;
    QuoteCloses(inner);
    assert [] + [inner] == [inner];
  }

  lemma QuoteCloses(inner: string)
    ensures Take(Lexer([], inner, true, InSingle), '\'') == Lexer([], inner, true, InWord)
  {
  }

  lemma QuoteIsKept()
    ensures !IsStripped('\'')
  {
  }

  lemma {:induction false} ScanQuoted(inner: string)
    requires '\'' !in inner
    ensures Scan("'" + inner) == Lexer([], inner, inner != [], InSingle)
  {
    var text := "'" + inner;
    if inner == [] {
      assert text == "'" && text[..0] == [];
    } else {
      var n := |inner| - 1;
      ScanQuoted(inner[..n]);
      assert text[..|text| - 1] == "'" + inner[..n] && inner == inner[..n] + [inner[n]];
    }
  }
}
