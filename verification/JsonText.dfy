/** JSON string literals and integers, as Python's `json.dumps` writes them, and a reader of the
    string grammar of section 7 of RFC 8259 with the variant that TOML basic strings allow. */
module JsonText {
  import opened Results
  import opened Decimals

  const DELETE: char := '\U{007F}'

  function HexDigit(d: nat): (c: char)
    requires d < 16
  {
    if d < 10 then DigitChar(d) else ('a' as int + d - 10) as char
  }

  function HexValue(c: char): Option<nat> {
    if IsDigit(c) then Some(DigitValue(c))
    else if 'a' <= c <= 'f' then Some(c as int - 'a' as int + 10)
    else if 'A' <= c <= 'F' then Some(c as int - 'A' as int + 10)
    else None
  }

  function Hex4(n: nat): (s: string)
    requires n < 0x10000
    ensures |s| == 4
  {
    [HexDigit(n / 0x1000), HexDigit(n / 0x100 % 16), HexDigit(n / 16 % 16), HexDigit(n % 16)]
  }

  /** The number that four hexadecimal digits at the start of the text denote. */
  function ReadHex4(text: string): (r: Option<nat>)
    ensures r.Some? ==> |text| >= 4 && r.value < 0x10000
  {
    if |text| < 4 then None
    else
      var a, b, c, d := HexDigitValue(text[0]), HexDigitValue(text[1]), HexDigitValue(text[2]), HexDigitValue(text[3]);
      if a < 16 && b < 16 && c < 16 && d < 16 then Some(0x1000 * a + 0x100 * b + 16 * c + d) else None
  }

  /** The value of a hexadecimal digit, 16 for any other character. */
  function HexDigitValue(c: char): (d: nat)
    ensures d <= 16
  {
    match HexValue(c)
    case None => 16
    case Some(d) => d
  }

  lemma HexDigitRoundTrip(d: nat)
    requires d < 16
    ensures HexDigitValue(HexDigit(d)) == d
  {
  }

  lemma Hex4RoundTrip(n: nat, rest: string)
    requires n < 0x10000
    ensures ReadHex4(Hex4(n) + rest) == Some(n)
  {
    hide HexDigit, HexDigitValue;
    HexDigitRoundTrip(n / 0x1000);
    HexDigitRoundTrip(n / 0x100 % 16);
    HexDigitRoundTrip(n / 16 % 16);
    HexDigitRoundTrip(n % 16);
    FourDigits(n);
  }

  lemma FourDigits(n: nat)
    requires n < 0x10000
    ensures n == 0x1000 * (n / 0x1000) + 0x100 * (n / 0x100 % 16) + 16 * (n / 16 % 16) + n % 16
  {
    assert n / 16 == 16 * (n / 0x100) + n / 16 % 16;
    assert n / 0x100 == 16 * (n / 0x1000) + n / 0x100 % 16;
  }

  // ---------- Printing ----------

  /** The letter of a two-character escape. */
  function ShortEscape(c: char): Option<char> {
    if c == '"' then Some('"')
    else if c == '\\' then Some('\\')
    else if c == '\n' then Some('n')
    else if c == '\r' then Some('r')
    else if c == '\t' then Some('t')
    else if c == '\U{0008}' then Some('b')
    else if c == '\U{000C}' then Some('f')
    else None
  }

  /** One character inside quotes. With `ascii`, everything beyond printable ASCII is escaped,
      characters beyond the basic plane as a surrogate pair. */
  function EscapeChar(c: char, ascii: bool): (s: string)
    ensures s != [] && s[0] != '"'
  {
    match ShortEscape(c)
    case Some(letter) => ['\\', letter]
    case None =>
      if c < ' ' || (ascii && '~' < c && c as int < 0x10000) then "\\u" + Hex4(c as int)
      else if ascii && '~' < c then
        var beyond := c as int - 0x10000;
        "\\u" + Hex4(0xD800 + beyond / 0x400) + "\\u" + Hex4(0xDC00 + beyond % 0x400)
      else [c]
  }

  function EscapeAll(s: string, ascii: bool): string {
    if s == [] then [] else EscapeChar(s[0], ascii) + EscapeAll(s[1..], ascii)
  }

  function Quote(s: string, ascii: bool): string {
    "\"" + EscapeAll(s, ascii) + "\""
  }

  // ---------- Reading ----------

  function UnescapeLetter(letter: char): Option<char> {
    if letter == '"' then Some('"')
    else if letter == '\\' then Some('\\')
    else if letter == 'n' then Some('\n')
    else if letter == 'r' then Some('\r')
    else if letter == 't' then Some('\t')
    else if letter == 'b' then Some('\U{0008}')
    else if letter == 'f' then Some('\U{000C}')
    else None
  }

  /** A character and where reading goes on. */
  datatype Read<T> = Read(value: T, rest: string)

  /** Reads the code unit escape that `text`, just behind a `\u`, begins with. In JSON two surrogates
      make one character; TOML only knows escapes of whole characters. */
  function ReadUnicodeEscape(text: string, toml: bool): (r: Option<Read<char>>)
    ensures r.Some? ==> |r.value.rest| < |text|
  {
    match ReadHex4(text)
    case None => None
    case Some(unit) =>
      if unit < 0xD800 || 0xE000 <= unit then Some(Read(unit as char, text[4..]))
      else if toml || unit >= 0xDC00 || |text| < 6 || text[4] != '\\' || text[5] != 'u' then None
      else
        match ReadHex4(text[6..])
        case None => None
        case Some(low) =>
          if 0xDC00 <= low < 0xE000 then
            Some(Read((0x10000 + (unit - 0xD800) * 0x400 + (low - 0xDC00)) as char, text[10..]))
          else None
  }

  /** Reads one character of a string literal. Control characters must be escaped; TOML counts
      U+007F among them and lets a tab stand for itself. */
  function ReadChar(text: string, toml: bool): (r: Option<Read<char>>)
    requires text != []
    ensures r.Some? ==> |r.value.rest| < |text|
  {
    if text[0] != '\\' then
      if text[0] < ' ' && !(toml && text[0] == '\t') then None
      else if toml && text[0] == DELETE then None
      else Some(Read(text[0], text[1..]))
    else if |text| < 2 then None
    else if text[1] == 'u' then ReadUnicodeEscape(text[2..], toml)
    else if text[1] == '/' && !toml then Some(Read('/', text[2..]))
    else
      match UnescapeLetter(text[1])
      case None => None
      case Some(c) => Some(Read(c, text[2..]))
  }

  /** Reads up to the closing quote. */
  function ReadBody(text: string, toml: bool): (r: Option<Read<string>>)
    ensures r.Some? ==> |r.value.rest| < |text|
    decreases |text|
  {
    if text == [] then None
    else if text[0] == '"' then Some(Read([], text[1..]))
    else
      match ReadChar(text, toml)
      case None => None
      case Some(first) =>
        match ReadBody(first.rest, toml)
        case None => None
        case Some(more) => Some(Read([first.value] + more.value, more.rest))
  }

  function ReadString(text: string, toml: bool): (r: Option<Read<string>>)
    ensures r.Some? ==> |r.value.rest| < |text|
  {
    if text == [] || text[0] != '"' then None else ReadBody(text[1..], toml)
  }

  // ---------- Reading undoes printing ----------

  lemma ReadEscapedUnit(n: nat, rest: string, toml: bool)
    requires n < 0xD800 || 0xE000 <= n < 0x10000
    ensures ReadUnicodeEscape(Hex4(n) + rest, toml) == Some(Read(n as char, rest))
  {
    hide ReadHex4, Hex4;
    Hex4RoundTrip(n, rest);
    assert (Hex4(n) + rest)[4..] == rest;
  }

  lemma ReadSurrogates(beyond: nat, rest: string)
    requires beyond < 0x100000
    ensures ReadUnicodeEscape(Hex4(0xD800 + beyond / 0x400) + ("\\u" + (Hex4(0xDC00 + beyond % 0x400) + rest)), false)
         == Some(Read((0x10000 + beyond) as char, rest))
  {
    hide ReadHex4, Hex4;
    var high, low := 0xD800 + beyond / 0x400, 0xDC00 + beyond % 0x400;
    var tail := Hex4(low) + rest;
    var text := Hex4(high) + ("\\u" + tail);
    Hex4RoundTrip(high, "\\u" + tail);
    Hex4RoundTrip(low, rest);
    assert text[4] == '\\' && text[5] == 'u' && text[6..] == tail;
    assert text[10..] == tail[4..] == rest;
  }

  /** An escaped character reads back as itself; only TOML's refusal of a bare U+007F gets in the way. */
  lemma CharRoundTrip(c: char, ascii: bool, toml: bool, rest: string)
    requires toml ==> !ascii
    ensures ReadChar(EscapeChar(c, ascii) + rest, toml) == if toml && c == DELETE then None else Some(Read(c, rest))
  {
    hide ReadUnicodeEscape, Hex4;
    var text := EscapeChar(c, ascii) + rest;
    if ShortEscape(c).Some? {
      assert text[0] == '\\' && text[1] == ShortEscape(c).value && text[2..] == rest;
    } else if c < ' ' || (ascii && '~' < c && c as int < 0x10000) {
      var hex := Hex4(c as int);
      assert text == "\\u" + (hex + rest) && text[0] == '\\' && text[1] == 'u';
      assert text[2..] == hex + rest;
      ReadEscapedUnit(c as int, rest, toml);
    } else if ascii && '~' < c {
      var beyond := c as int - 0x10000;
      var high, low := Hex4(0xD800 + beyond / 0x400), Hex4(0xDC00 + beyond % 0x400);
      assert text == "\\u" + (high + ("\\u" + (low + rest))) && text[0] == '\\' && text[1] == 'u';
      assert text[2..] == high + ("\\u" + (low + rest));
      ReadSurrogates(beyond, rest);
    } else {
      assert text[0] == c && text[1..] == rest;
    }
  }

  lemma {:induction false} BodyRoundTrip(s: string, ascii: bool, toml: bool, rest: string)
    requires toml ==> !ascii
    ensures ReadBody(EscapeAll(s, ascii) + ("\"" + rest), toml) ==
      if toml && DELETE in s then None else Some(Read(s, rest))
  {
    hide ReadChar, EscapeChar;
    var text := EscapeAll(s, ascii) + ("\"" + rest);
    if s == [] {
      assert text == "\"" + rest && text[1..] == rest;
    } else {
      var first, more := EscapeChar(s[0], ascii), EscapeAll(s[1..], ascii) + ("\"" + rest);
      assert text == first + more && text[0] == first[0];
      assert s == [s[0]] + s[1..];
      CharRoundTrip(s[0], ascii, toml, more);
      BodyRoundTrip(s[1..], ascii, toml, rest);
    }
  }

  /** A printed string is read back, and reading stops right behind it. */
  lemma StringRoundTrip(s: string, ascii: bool, toml: bool, rest: string)
    requires toml ==> !ascii
    ensures ReadString(Quote(s, ascii) + rest, toml) == if toml && DELETE in s then None else Some(Read(s, rest))
  {
    hide EscapeAll, ReadBody;
    var text := Quote(s, ascii) + rest;
    assert text == "\"" + (EscapeAll(s, ascii) + ("\"" + rest));
    assert text[1..] == EscapeAll(s, ascii) + ("\"" + rest);
    BodyRoundTrip(s, ascii, toml, rest);
  }

  /** A printed string cannot be confused with another one, whatever follows. */
  lemma QuoteUnique(a: string, b: string, ascii: bool, rest: string, other: string)
    requires Quote(a, ascii) + rest == Quote(b, ascii) + other
    ensures a == b && rest == other
  {
    hide Quote, ReadString;
    StringRoundTrip(a, ascii, false, rest);
    StringRoundTrip(b, ascii, false, other);
  }

  // ---------- How characters are printed ----------

  const HEX_DIGITS := "0123456789abcdef"

  lemma HexDigitIs(d: nat)
    requires d < 16
    ensures HexDigit(d) == HEX_DIGITS[d]
  {
  }

  /** A code unit escape in lower-case hexadecimal digits. */
  ghost function UnitEscape(n: nat): string
    requires n < 0x10000
  {
    "\\u" + [HEX_DIGITS[n / 4096], HEX_DIGITS[n / 256 % 16], HEX_DIGITS[n / 16 % 16], HEX_DIGITS[n % 16]]
  }

  lemma Hex4Is(n: nat)
    requires n < 0x10000
    ensures "\\u" + Hex4(n) == UnitEscape(n)
  {
    hide HexDigit;
    HexDigitIs(n / 4096);
    HexDigitIs(n / 256 % 16);
    HexDigitIs(n / 16 % 16);
    HexDigitIs(n % 16);
  }

  /** How a character is printed: seven have letters, the other control characters code units, and so have,
      if asked for ASCII, those beyond `~`, two of them beyond the basic plane. */
  lemma PrintedAs(c: char, ascii: bool)
    ensures EscapeChar(c, ascii) ==
      if c == '"' then "\\\""
      else if c == '\\' then "\\\\"
      else if c == '\n' then "\\n"
      else if c == '\r' then "\\r"
      else if c == '\t' then "\\t"
      else if c == '\U{0008}' then "\\b"
      else if c == '\U{000C}' then "\\f"
      else if c as int < 32 then UnitEscape(c as int)
      else if !ascii || c as int <= 126 then [c]
      else if c as int < 0x10000 then UnitEscape(c as int)
      else UnitEscape(0xD800 + (c as int - 0x10000) / 0x400) + UnitEscape(0xDC00 + (c as int - 0x10000) % 0x400)
  {
    hide Hex4, UnitEscape;
    if c as int < 0x10000 {
      Hex4Is(c as int);
    } else {
      Hex4Is(0xD800 + (c as int - 0x10000) / 0x400);
      Hex4Is(0xDC00 + (c as int - 0x10000) % 0x400);
      assert "\\u" + Hex4(0xD800 + (c as int - 0x10000) / 0x400) + "\\u" + Hex4(0xDC00 + (c as int - 0x10000) % 0x400)
          == ("\\u" + Hex4(0xD800 + (c as int - 0x10000) / 0x400)) + ("\\u" + Hex4(0xDC00 + (c as int - 0x10000) % 0x400));
    }
  }

  lemma {:induction false} EscapeAllSnoc(s: string, c: char, ascii: bool)
    ensures EscapeAll(s + [c], ascii) == EscapeAll(s, ascii) + EscapeChar(c, ascii)
  {
    hide EscapeChar;
    if s == [] {
      assert s + [c] == [c] && [c][1..] == [];
    } else {
      EscapeAllSnoc(s[1..], c, ascii);
      assert (s + [c])[1..] == s[1..] + [c];
    }
  }

  // ---------- Integers ----------

  function IntText(n: int): (s: string)
    ensures s != []
  {
    if n < 0 then "-" + Digits(-n) else Digits(n)
  }

  ghost predicate EndsNumber(rest: string) {
    rest != [] && !IsDigit(rest[0])
  }

  lemma NaturalUnique(m: nat, n: nat, rest: string, other: string)
    requires EndsNumber(rest) && EndsNumber(other) && Digits(m) + rest == Digits(n) + other
    ensures m == n && rest == other
  {
    hide Digits;
    var text := Digits(m) + rest;
    assert text == Digits(n) + other;
    DigitRunUnique(text, Digits(m), rest, Digits(n), other);
    assert text[|Digits(m)|..] == rest && text[|Digits(n)|..] == other;
    DigitsValue(m);
    DigitsValue(n);
  }

  lemma SameSign(m: int, n: int, rest: string, other: string)
    requires IntText(m) + rest == IntText(n) + other
    ensures m < 0 <==> n < 0
  {
    hide Digits;
    assert (IntText(m) + rest)[0] == IntText(m)[0] && (IntText(n) + other)[0] == IntText(n)[0];
    assert m < 0 <==> !IsDigit(IntText(m)[0]);
    assert n < 0 <==> !IsDigit(IntText(n)[0]);
  }

  lemma AfterMinus(a: string, rest: string, b: string, other: string)
    requires "-" + a + rest == "-" + b + other
    ensures a + rest == b + other
  {
    assert a + rest == ("-" + a + rest)[1..];
    assert b + other == ("-" + b + other)[1..];
  }

  /** A printed integer cannot be confused with another one, if something else than a digit follows. */
  lemma IntTextUnique(m: int, n: int, rest: string, other: string)
    requires EndsNumber(rest) && EndsNumber(other) && IntText(m) + rest == IntText(n) + other
    ensures m == n && rest == other
  {
    hide Digits, EndsNumber;
    SameSign(m, n, rest, other);
    if m >= 0 {
      NaturalUnique(m, n, rest, other);
    } else {
      AfterMinus(Digits(-m), rest, Digits(-n), other);
      NaturalUnique(-m, -n, rest, other);
    }
  }
}
