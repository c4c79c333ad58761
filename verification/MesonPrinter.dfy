/** Printing a list of strings for a Meson machine file, by escaping backslashes and then quotes. */
module MesonPrinter {
  import opened Results
  import opened JsonText
  import opened Sequences

  /** Replaces every occurrence of one character. */
  function Replace(s: string, c: char, text: string): string {
    if s == [] then [] else (if s[0] == c then text else [s[0]]) + Replace(s[1..], c, text)
  }

  function Escape(value: string): string {
    Replace(Replace(value, '\\', "\\\\"), '\'', "\\'")
  }

  function Quoted(value: string): string {
    "'" + (Escape(value) + "'")
  }

  function JoinQuoted(values: seq<string>): string {
    if values == [] then ""
    else if |values| == 1 then Quoted(values[0])
    else Quoted(values[0]) + (", " + JoinQuoted(values[1..]))
  }

  function MesonValues(values: seq<string>): string {
    "[" + (JoinQuoted(values) + "]")
  }

  lemma JoinSplit(values: seq<string>)
    requires values != []
    ensures JoinQuoted(values) == Quoted(values[0]) + if |values| == 1 then "" else ", " + JoinQuoted(values[1..])
  {
    hide Quoted;
  }

  /** One string more is printed behind a comma and a blank, in single quotes. */
  lemma {:induction false} OneStringMore(values: seq<string>, value: string)
    requires values != []
    ensures JoinQuoted(values + [value]) == JoinQuoted(values) + ", '" + Escape(value) + "'"
  {
    hide Escape, JoinQuoted;
    var more := values + [value];
    JoinSplit(values);
    JoinSplit(more);
    if |values| == 1 {
      assert more[1..] == [value];
      JoinSplit([value]);
    } else {
      OneStringMore(values[1..], value);
      assert more[1..] == values[1..] + [value];
    }
  }

  // ---------- Reading ----------

  /** The escapes of a Meson string; any other backslash stands for itself. Numeric and named
      escapes are not read. */
  function UnescapeMeson(letter: char): Option<char> {
    if letter == '\\' then Some('\\')
    else if letter == '\'' then Some('\'')
    else if letter == 'n' then Some('\n')
    else if letter == 't' then Some('\t')
    else if letter == 'r' then Some('\r')
    else if letter == 'a' then Some('\U{0007}')
    else if letter == 'b' then Some('\U{0008}')
    else if letter == 'f' then Some('\U{000C}')
    else if letter == 'v' then Some('\U{000B}')
    else None
  }

  /** Reads up to the closing quote. */
  function ReadBody(text: string): (r: Option<Read<string>>)
    ensures r.Some? ==> |r.value.rest| < |text|
  {
    if text == [] then None
    else if text[0] == '\'' then Some(Read("", text[1..]))
    else if text[0] == '\\' then
      if |text| < 2 || text[1] in "uUxN01234567" then None
      else
        match ReadBody(text[2..])
        case None => None
        case Some(more) =>
          var first := if UnescapeMeson(text[1]).Some? then [UnescapeMeson(text[1]).value] else ['\\', text[1]];
          Some(Read(first + more.value, more.rest))
    else
      match ReadBody(text[1..])
      case None => None
      case Some(more) => Some(Read([text[0]] + more.value, more.rest))
  }

  function SkipSpaces(text: string): (rest: string)
    ensures |rest| <= |text|
  {
    if text != [] && text[0] == ' ' then SkipSpaces(text[1..]) else text
  }

  /** Reads strings separated by commas up to the closing bracket. */
  function ReadStrings(text: string): (r: Option<Read<seq<string>>>)
    decreases |text|
  {
    if text == [] then None
    else if text[0] == ']' then Some(Read([], text[1..]))
    else if text[0] != '\'' then None
    else
      match ReadBody(text[1..])
      case None => None
      case Some(first) =>
        var behind := SkipSpaces(first.rest);
        if behind == [] then None
        else if behind[0] == ']' then Some(Read([first.value], behind[1..]))
        else if behind[0] != ',' then None
        else
          match ReadStrings(SkipSpaces(behind[1..]))
          case None => None
          case Some(more) => Some(Read([first.value] + more.value, more.rest))
  }

  function ReadList(text: string): Option<Read<seq<string>>> {
    if text == [] || text[0] != '[' then None else ReadStrings(SkipSpaces(text[1..]))
  }

  // ---------- Reading undoes printing ----------

  lemma {:induction false} ReplaceSplit(a: string, b: string, c: char, text: string)
    ensures Replace(a + b, c, text) == Replace(a, c, text) + Replace(b, c, text)
  {
    if a == [] {
      assert a + b == b;
    } else {
      ReplaceSplit(a[1..], b, c, text);
      assert (a + b)[1..] == a[1..] + b && (a + b)[0] == a[0];
      Associative(if a[0] == c then text else [a[0]], Replace(a[1..], c, text), Replace(b, c, text));
    }
  }

  lemma ReplaceOne(x: char, c: char, text: string)
    ensures Replace([x], c, text) == if x == c then text else [x]
  {
    assert [x][1..] == [];
  }

  /** Both replacements together escape character by character. */
  lemma EscapeFirst(value: string)
    requires value != []
    ensures Escape(value) ==
      (if value[0] == '\\' then "\\\\" else if value[0] == '\'' then "\\'" else [value[0]]) + Escape(value[1..])
  {
    var x, tail := value[0], value[1..];
    var inner := if x == '\\' then "\\\\" else [x];
    ReplaceSplit(inner, Replace(tail, '\\', "\\\\"), '\'', "\\'");
    if x == '\\' {
      ReplaceSplit("\\", "\\", '\'', "\\'");
      ReplaceOne('\\', '\'', "\\'");
      assert "\\" + "\\" == "\\\\";
    } else {
      ReplaceOne(x, '\'', "\\'");
    }
  }

  lemma ReadOne(c: char, escaped: string, more: string)
    requires escaped == if c == '\\' then "\\\\" else if c == '\'' then "\\'" else [c]
    ensures ReadBody(escaped + more) ==
      match ReadBody(more)
      case None => None
      case Some(r) => Some(Read([c] + r.value, r.rest))
  {
    var text := escaped + more;
    if c == '\\' || c == '\'' {
      assert text[0] == '\\' && text[1] == c && text[2..] == more;
      assert c !in "uUxN01234567";
    } else {
      assert text[0] == c && text[1..] == more;
    }
  }

  lemma {:induction false} BodyRoundTrip(value: string, rest: string)
    ensures ReadBody(Escape(value) + ("'" + rest)) == Some(Read(value, rest))
  {
    hide Escape, ReadBody;
    var closing := "'" + rest;
    if value == [] {
      NothingToEscape();
      ClosingQuote(rest);
      assert Escape(value) + closing == closing;
    } else {
      EscapeFirst(value);
      var first := if value[0] == '\\' then "\\\\" else if value[0] == '\'' then "\\'" else [value[0]];
      var more := Escape(value[1..]) + closing;
      Associative(first, Escape(value[1..]), closing);
      ReadOne(value[0], first, more);
      BodyRoundTrip(value[1..], rest);
      assert value == [value[0]] + value[1..];
    }
  }

  lemma NothingToEscape()
    ensures Escape([]) == []
  {
  }

  lemma ClosingQuote(rest: string)
    ensures ReadBody("'" + rest) == Some(Read("", rest))
  {
    assert ("'" + rest)[1..] == rest;
  }

  /** One quoted string at the head of the text. */
  lemma QuotedRoundTrip(value: string, behind: string)
    ensures var text := Quoted(value) + behind;
      text[0] == '\'' && ReadBody(text[1..]) == Some(Read(value, behind))
  {
    hide Escape, ReadBody;
    BodyRoundTrip(value, behind);
    assert Quoted(value) + behind == "'" + (Escape(value) + ("'" + behind));
    assert (Quoted(value) + behind)[1..] == Escape(value) + ("'" + behind);
  }

  lemma {:induction false} StringsRoundTrip(values: seq<string>, rest: string)
    ensures ReadStrings(JoinQuoted(values) + ("]" + rest)) == Some(Read(values, rest))
  {
    hide Quoted, ReadBody;
    var closing := "]" + rest;
    if values == [] {
      assert JoinQuoted(values) + closing == closing && closing[1..] == rest;
    } else if |values| == 1 {
      QuotedRoundTrip(values[0], closing);
      assert closing[1..] == rest && values == [values[0]];
    } else {
      var more := JoinQuoted(values[1..]) + closing;
      var behind := ", " + more;
      Associative(Quoted(values[0]), ", " + JoinQuoted(values[1..]), closing);
      Associative(", ", JoinQuoted(values[1..]), closing);
      QuotedRoundTrip(values[0], behind);
      assert behind[1..] == " " + more;
      MoreStrings(values[1..], rest);
      StringsRoundTrip(values[1..], rest);
      assert values == [values[0]] + values[1..];
    }
  }

  lemma MoreStrings(values: seq<string>, rest: string)
    ensures var more := JoinQuoted(values) + ("]" + rest); more != [] && more[0] != ' ' && SkipSpaces(" " + more) == more
  {
    hide Escape;
    var more := JoinQuoted(values) + ("]" + rest);
    assert values == [] ==> more[0] == ']';
    assert values != [] ==> more[0] == '\'';
    assert (" " + more)[1..] == more;
  }

  /** Every list of strings reads back as printed. */
  lemma MesonRoundTrip(values: seq<string>)
    ensures ReadList(MesonValues(values)) == Some(Read(values, ""))
  {
    hide JoinQuoted, ReadStrings;
    var text := MesonValues(values);
    MoreStrings(values, "");
    StringsRoundTrip(values, "");
    assert "]" + "" == "]" && text[1..] == JoinQuoted(values) + "]";
  }

  // ---------- The order of the replacements ----------

  /** Escaping quotes first doubles the backslashes that protect them. */
  function QuotesFirst(value: string): string {
    Replace(Replace(value, '\'', "\\'"), '\\', "\\\\")
  }

  lemma QuotesFirstFirst(value: string)
    requires value != []
    ensures QuotesFirst(value) ==
      (if value[0] == '\'' then "\\\\'" else if value[0] == '\\' then "\\\\" else [value[0]]) + QuotesFirst(value[1..])
  {
    var x, tail := value[0], value[1..];
    var inner := if x == '\'' then "\\'" else [x];
    ReplaceSplit(inner, Replace(tail, '\'', "\\'"), '\\', "\\\\");
    if x == '\'' {
      ReplaceSplit("\\", "'", '\\', "\\\\");
      ReplaceOne('\\', '\\', "\\\\");
      ReplaceOne('\'', '\\', "\\\\");
      assert "\\" + "'" == "\\'" && "\\\\" + "'" == "\\\\'";
    } else {
      ReplaceOne(x, '\\', "\\\\");
    }
  }

  lemma {:induction false} QuotesFirstReads(value: string, rest: string)
    ensures var r := ReadBody(QuotesFirst(value) + ("'" + rest));
      r.Some? && ('\'' in value ==> r.value.value != value) && ('\'' !in value ==> r.value == Read(value, rest))
  {
    hide QuotesFirst, ReadBody;
    var closing := "'" + rest;
    if value == [] {
      NothingQuotesFirst();
      ClosingQuote(rest);
      assert QuotesFirst(value) + closing == closing;
    } else {
      QuotesFirstFirst(value);
      assert value == [value[0]] + value[1..];
      var more := QuotesFirst(value[1..]) + closing;
      if value[0] == '\'' {
        assert "\\\\'" + QuotesFirst(value[1..]) + closing == "\\\\" + ("'" + more);
        ReadOne('\\', "\\\\", "'" + more);
        ClosingQuote(more);
        assert ['\\'] + "" == "\\";
      } else {
        var first := if value[0] == '\\' then "\\\\" else [value[0]];
        Associative(first, QuotesFirst(value[1..]), closing);
        ReadOne(value[0], first, more);
        QuotesFirstReads(value[1..], rest);
      }
    }
  }

  lemma NothingQuotesFirst()
    ensures QuotesFirst([]) == []
  {
  }

  /** In the other order a string reads back exactly when it contains no quote. */
  lemma QuotesFirstReadsIffNoQuote(value: string, rest: string)
    ensures ReadBody(QuotesFirst(value) + ("'" + rest)) == Some(Read(value, rest)) <==> '\'' !in value
  {
    hide QuotesFirst, ReadBody;
    QuotesFirstReads(value, rest);
  }
}
