/** Rendering values into TOML, and a reader of the grammar that shows nothing is lost. */
module TomlPrinter {
  import opened Results
  import opened Decimals
  import opened JsonText

  /** One digit or more. */
  type Numeral = s: string | s != [] && AllDigits(s) witness "0"

  datatype Exponent = Exponent(negative: bool, digits: Numeral)

  /** What follows the whole part of a number. An integer has neither part. */
  datatype Tail = Tail(fraction: Option<Numeral>, exponent: Option<Exponent>)

  const NO_TAIL := Tail(None, None)

  type FloatTail = t: Tail | t != NO_TAIL witness Tail(Some("0"), None)

  /** Python values as the renderer sees them. A finite float is its shortest decimal form, as
      Python prints it; Other is any type that the renderer refuses. */
  datatype Value =
    | Boolean(b: bool)
    | Integer(n: int)
    | Float(negative: bool, whole: nat, tail: FloatTail)
    | NonFinite
    | String(s: string)
    | List(items: seq<Value>)
    | Other

  function TailText(tail: Tail): string {
    (if tail.fraction.Some? then "." + tail.fraction.value else "")
    + (if tail.exponent.Some? then ExponentText(tail.exponent.value) else "")
  }

  function ExponentText(exponent: Exponent): string {
    (if exponent.negative then "e-" else "e+") + exponent.digits
  }

  function FloatText(negative: bool, whole: nat, tail: Tail): string {
    (if negative then "-" else "") + Digits(whole) + TailText(tail)
  }

  /** The TOML text of a value; None where the program raises. */
  function TomlValue(value: Value): Option<string> {
    match value
    case Boolean(b) => Some(if b then "true" else "false")
    case Integer(n) => Some(IntText(n))
    case Float(negative, whole, tail) => Some(FloatText(negative, whole, tail))
    case NonFinite => None
    case String(s) => Some(Quote(s, false))
    case List(items) =>
      (match TomlItems(items)
       case None => None
       case Some(text) => Some("[" + text + "]"))
    case Other => None
  }

  /** The texts of the items, separated by a comma and a space. */
  function TomlItems(items: seq<Value>): Option<string> {
    if items == [] then Some("")
    else
      match (TomlValue(items[0]), TomlItems(items[1..]))
      case (Some(first), Some(rest)) => Some(if |items| == 1 then first else first + ", " + rest)
      case _ => None
  }

  /** One item more is printed behind a comma and a blank; one that cannot be printed spoils the list. */
  lemma {:induction false} OneItemMore(items: seq<Value>, item: Value)
    requires items != []
    ensures TomlItems(items + [item]) ==
      match (TomlItems(items), TomlValue(item))
      case (Some(front), Some(last)) => Some(front + ", " + last)
      case _ => None
  {
    hide TomlValue;
    var more := items + [item];
    assert more[0] == items[0] && more[1..] == items[1..] + [item];
    if |items| == 1 {
      OneItem(item);
      assert more[1..] == [item];
    } else {
      OneItemMore(items[1..], item);
      assert more[1..] != [] && |more| > 1;
      if TomlValue(items[0]).Some? && TomlItems(items[1..]).Some? && TomlValue(item).Some? {
        var first, front, last := TomlValue(items[0]).value, TomlItems(items[1..]).value, TomlValue(item).value;
        assert first + ", " + (front + ", " + last) == first + ", " + front + ", " + last;
      }
    }
  }

  lemma OneItem(item: Value)
    ensures TomlItems([item]) == TomlValue(item)
  {
    hide TomlValue;
    assert [item][1..] == [];
  }

  // ---------- Reading ----------

  predicate IsBlank(c: char) { c == ' ' || c == '\t' || c == '\n' }

  function SkipBlanks(text: string): (rest: string)
    ensures |rest| <= |text|
  {
    if text != [] && IsBlank(text[0]) then SkipBlanks(text[1..]) else text
  }

  /** An optional fraction: a point and at least one digit. */
  function ReadFraction(text: string): (r: Option<Read<Option<Numeral>>>)
    ensures r.Some? ==> |r.value.rest| <= |text|
  {
    var nothing: Option<Numeral> := None;
    if text == [] || text[0] != '.' then Some(Read(nothing, text))
    else
      var run := DigitRun(text[1..]);
      if run == 0 then None
      else
        var fraction: Option<Numeral> := Some(text[1..][..run]);
        Some(Read(fraction, text[1..][run..]))
  }

  /** An optional exponent: a letter, an optional sign and at least one digit. */
  function ReadExponent(text: string): (r: Option<Read<Option<Exponent>>>)
    ensures r.Some? ==> |r.value.rest| <= |text|
  {
    if text == [] || (text[0] != 'e' && text[0] != 'E') then Some(Read(None, text))
    else
      var signed := |text| > 1 && (text[1] == '-' || text[1] == '+');
      var body := if signed then text[2..] else text[1..];
      var run := DigitRun(body);
      if run == 0 then None else Some(Read(Some(Exponent(signed && text[1] == '-', body[..run])), body[run..]))
  }

  /** A number: an optional sign, then the rest of it. */
  function ReadNumber(text: string): (r: Option<Read<Value>>)
    ensures r.Some? ==> |r.value.rest| < |text|
  {
    if text != [] && (text[0] == '-' || text[0] == '+') then ReadUnsigned(text[0] == '-', text[1..])
    else ReadUnsigned(false, text)
  }

  /** Digits without leading zeros, and what follows them. */
  function ReadUnsigned(negative: bool, text: string): (r: Option<Read<Value>>)
    ensures r.Some? ==> |r.value.rest| < |text|
  {
    var run := DigitRun(text);
    if run == 0 || (run > 1 && text[0] == '0') then None
    else
      match ReadFraction(text[run..])
      case None => None
      case Some(fraction) =>
        match ReadExponent(fraction.rest)
        case None => None
        case Some(exponent) =>
          Some(Read(NumberOf(negative, ValueOf(text[..run]), Tail(fraction.value, exponent.value)), exponent.rest))
  }

  /** An integer, or a float if there is a fraction or an exponent. */
  function NumberOf(negative: bool, whole: nat, tail: Tail): Value {
    if tail != NO_TAIL then Float(negative, whole, tail) else Integer(if negative then 0 - whole else whole)
  }

  function ReadValue(text: string): (r: Option<Read<Value>>)
    ensures r.Some? ==> |r.value.rest| < |text|
    decreases |text|, 0
  {
    if text == [] then None
    else if text[0] == '"' then
      match ReadString(text, true)
      case None => None
      case Some(r) => Some(Read(String(r.value), r.rest))
    else if text[0] == '[' then
      match ReadItems(SkipBlanks(text[1..]))
      case None => None
      case Some(r) => Some(Read(List(r.value), r.rest))
    else if "true" <= text then Some(Read(Boolean(true), text[4..]))
    else if "false" <= text then Some(Read(Boolean(false), text[5..]))
    else ReadNumber(text)
  }

  /** The items of a list up to its closing bracket; a trailing comma is allowed. */
  function ReadItems(text: string): (r: Option<Read<seq<Value>>>)
    ensures r.Some? ==> |r.value.rest| < |text|
    decreases |text|, 1
  {
    if text == [] then None
    else if text[0] == ']' then Some(Read([], text[1..]))
    else
      match ReadValue(text)
      case None => None
      case Some(first) =>
        var behind := SkipBlanks(first.rest);
        if behind == [] then None
        else if behind[0] == ']' then Some(Read([first.value], behind[1..]))
        else if behind[0] != ',' then None
        else
          match ReadItems(SkipBlanks(behind[1..]))
          case None => None
          case Some(more) => Some(Read([first.value] + more.value, more.rest))
  }

  // ---------- Reading undoes rendering ----------

  predicate Renderable(value: Value) {
    match value
    case List(items) => forall i :: 0 <= i < |items| ==> Renderable(items[i])
    case NonFinite => false
    case Other => false
    case _ => true
  }

  /** Some string in the value contains U+007F. */
  predicate HasDelete(value: Value) {
    match value
    case String(s) => DELETE in s
    case List(items) => exists i :: 0 <= i < |items| && HasDelete(items[i])
    case _ => false
  }

  predicate AnyDelete(items: seq<Value>) {
    exists i :: 0 <= i < |items| && HasDelete(items[i])
  }

  /** What may follow a number without being taken for a part of it. */
  ghost predicate Ends(rest: string) {
    rest == [] || (!IsDigit(rest[0]) && rest[0] != '.' && rest[0] != 'e' && rest[0] != 'E')
  }

  lemma DigitsNormal(n: nat)
    ensures |Digits(n)| > 1 ==> Digits(n)[0] != '0'
  {
    DigitsValue(n);
  }

  lemma ExponentRoundTrip(exponent: Option<Exponent>, rest: string)
    requires Ends(rest)
    ensures ReadExponent((if exponent.Some? then ExponentText(exponent.value) else "") + rest) == Some(Read(exponent, rest))
  {
    hide DigitRun;
    if exponent.Some? {
      var digits := exponent.value.digits;
      DigitRunOf(digits, rest);
      var text := ExponentText(exponent.value) + rest;
      assert text[0] == 'e' && text[1] == (if exponent.value.negative then '-' else '+');
      assert text[2..] == digits + rest;
    } else {
      assert "" + rest == rest;
    }
  }

  lemma FractionRoundTrip(fraction: Option<Numeral>, rest: string)
    requires rest == [] || (!IsDigit(rest[0]) && rest[0] != '.')
    ensures ReadFraction((if fraction.Some? then "." + fraction.value else "") + rest) == Some(Read(fraction, rest))
  {
    hide DigitRun;
    if fraction.Some? {
      DigitRunOf(fraction.value, rest);
      assert ("." + fraction.value + rest)[1..] == fraction.value + rest;
    } else {
      assert "" + rest == rest;
    }
  }

  /** What follows the whole part begins with a point, an exponent or the rest. */
  lemma TailStart(tail: Tail, rest: string)
    requires Ends(rest)
    ensures var text := TailText(tail) + rest; text == [] || !IsDigit(text[0])
    ensures var text := (if tail.exponent.Some? then ExponentText(tail.exponent.value) else "") + rest;
      text == [] || (!IsDigit(text[0]) && text[0] != '.')
  {
  }

  lemma TailRoundTrip(tail: Tail, rest: string)
    requires Ends(rest)
    ensures ReadFraction(TailText(tail) + rest).Some?
    ensures ReadFraction(TailText(tail) + rest).value.value == tail.fraction
    ensures ReadExponent(ReadFraction(TailText(tail) + rest).value.rest) == Some(Read(tail.exponent, rest))
  {
    hide ReadFraction, ReadExponent;
    var first := if tail.fraction.Some? then "." + tail.fraction.value else "";
    var second := if tail.exponent.Some? then ExponentText(tail.exponent.value) else "";
    TailStart(tail, rest);
    assert TailText(tail) + rest == first + (second + rest);
    FractionRoundTrip(tail.fraction, second + rest);
    ExponentRoundTrip(tail.exponent, rest);
  }

  lemma UnsignedRoundTrip(negative: bool, whole: nat, tail: Tail, rest: string)
    requires Ends(rest)
    ensures ReadUnsigned(negative, Digits(whole) + (TailText(tail) + rest)) == Some(Read(NumberOf(negative, whole, tail), rest))
  {
    hide Digits, DigitRun, ReadFraction, ReadExponent, TailText, NumberOf;
    var digits, behind := Digits(whole), TailText(tail) + rest;
    TailStart(tail, rest);
    DigitRunOf(digits, behind);
    DigitsNormal(whole);
    DigitsValue(whole);
    TailRoundTrip(tail, rest);
    assert (digits + behind)[0] == digits[0];
  }

  /** A number as the renderer prints it, integer or float. */
  lemma NumberRoundTrip(negative: bool, whole: nat, tail: Tail, rest: string)
    requires Ends(rest)
    ensures ReadNumber(FloatText(negative, whole, tail) + rest) == Some(Read(NumberOf(negative, whole, tail), rest))
  {
    hide Digits, TailText, NumberOf, ReadUnsigned;
    var unsigned := Digits(whole) + (TailText(tail) + rest);
    var text := FloatText(negative, whole, tail) + rest;
    UnsignedRoundTrip(negative, whole, tail, rest);
    if negative {
      assert text[0] == '-' && text[1..] == unsigned;
    } else {
      assert text == unsigned && IsDigit(text[0]);
    }
  }

  lemma IntegerIsNumber(n: int)
    ensures IntText(n) == FloatText(n < 0, if n < 0 then -n else n, NO_TAIL)
  {
    hide Digits;
    assert TailText(NO_TAIL) == "";
  }

  lemma NumberStart(negative: bool, whole: nat, tail: Tail, rest: string)
    ensures var text := FloatText(negative, whole, tail) + rest; text != [] && (text[0] == '-' || IsDigit(text[0]))
  {
    hide Digits;
  }

  lemma ReadsNumber(negative: bool, whole: nat, tail: Tail, rest: string)
    requires Ends(rest)
    ensures ReadValue(FloatText(negative, whole, tail) + rest) == Some(Read(NumberOf(negative, whole, tail), rest))
  {
    hide FloatText, ReadNumber;
    NumberStart(negative, whole, tail, rest);
    NumberRoundTrip(negative, whole, tail, rest);
    var text := FloatText(negative, whole, tail) + rest;
    NotAPrefix("true", text);
    NotAPrefix("false", text);
  }

  lemma NotAPrefix(prefix: string, text: string)
    requires prefix != [] && text != [] && prefix[0] != text[0]
    ensures !(prefix <= text)
  {
  }

  lemma ReadsString(s: string, rest: string)
    ensures ReadValue(Quote(s, false) + rest) == if DELETE in s then None else Some(Read(String(s), rest))
  {
    hide ReadString, EscapeAll;
    StringRoundTrip(s, false, true, rest);
    assert (Quote(s, false) + rest)[0] == '"';
  }

  lemma ReadsBoolean(b: bool, rest: string)
    ensures ReadValue((if b then "true" else "false") + rest) == Some(Read(Boolean(b), rest))
  {
    if b {
      assert "true" <= "true" + rest && ("true" + rest)[4..] == rest && ("true" + rest)[0] == 't';
    } else {
      var text := "false" + rest;
      assert "false" <= text && text[5..] == rest && text[0] == 'f';
      NotAPrefix("true", text);
    }
  }

  /** A rendered value starts neither with a blank nor with a closing bracket. */
  lemma FirstCharacter(value: Value)
    requires TomlValue(value).Some?
    ensures var text := TomlValue(value).value; text != [] && !IsBlank(text[0]) && text[0] != ']'
  {
    hide FloatText, IntText;
    match value
    case Integer(n) =>
      IntegerIsNumber(n);
      NumberStart(n < 0, if n < 0 then -n else n, NO_TAIL, "");
      assert IntText(n) + "" == IntText(n);
    case Float(negative, whole, tail) =>
      NumberStart(negative, whole, tail, "");
      assert FloatText(negative, whole, tail) + "" == FloatText(negative, whole, tail);
    case _ =>
  }

  lemma NoBlanks(text: string)
    requires text == [] || !IsBlank(text[0])
    ensures SkipBlanks(text) == text
  {
  }

  /** Reading a rendered value gives the value back, unless a string holds U+007F: that character is
      rendered bare, and TOML forbids it. */
  lemma {:induction false} ValueRoundTrip(value: Value, rest: string)
    requires TomlValue(value).Some? && Ends(rest)
    ensures ReadValue(TomlValue(value).value + rest) == if HasDelete(value) then None else Some(Read(value, rest))
    decreases value, 1
  {
    hide Quote, IntText, FloatText, ReadItems, TomlItems;
    match value
    case Boolean(b) => ReadsBoolean(b, rest);
    case Integer(n) =>
      IntegerIsNumber(n);
      ReadsNumber(n < 0, if n < 0 then -n else n, NO_TAIL, rest);
    case Float(negative, whole, tail) => ReadsNumber(negative, whole, tail, rest);
    case String(s) => ReadsString(s, rest);
    case List(items) =>
      hide ReadValue, HasDelete;
      ItemsRoundTrip(items, rest);
      ReadsList(items, TomlItems(items).value, rest);
      ListDelete(items);
  }

  lemma ListDelete(items: seq<Value>)
    ensures HasDelete(List(items)) == AnyDelete(items)
  {
  }

  lemma ItemsStart(items: seq<Value>, rest: string)
    requires TomlItems(items).Some?
    ensures SkipBlanks(TomlItems(items).value + ("]" + rest)) == TomlItems(items).value + ("]" + rest)
  {
    hide TomlValue;
    var text := TomlItems(items).value + ("]" + rest);
    if items == [] {
      assert text[0] == ']';
    } else {
      FirstCharacter(items[0]);
      assert text[0] == TomlValue(items[0]).value[0];
    }
  }

  lemma ReadsList(items: seq<Value>, itemsText: string, rest: string)
    requires TomlItems(items) == Some(itemsText)
    ensures ReadValue("[" + itemsText + "]" + rest) ==
      match ReadItems(itemsText + ("]" + rest))
      case None => None
      case Some(r) => Some(Read(List(r.value), r.rest))
  {
    hide ReadItems, TomlItems;
    var text := "[" + itemsText + "]" + rest;
    assert text == "[" + (itemsText + ("]" + rest)) && text[0] == '[' && text[1..] == itemsText + ("]" + rest);
    ItemsStart(items, rest);
  }

  lemma {:induction false} ItemsRoundTrip(items: seq<Value>, rest: string)
    requires TomlItems(items).Some?
    ensures ReadItems(TomlItems(items).value + ("]" + rest)) ==
      if AnyDelete(items) then None else Some(Read(items, rest))
    decreases items, 0
  {
    hide TomlValue, HasDelete, ReadValue;
    var closing := "]" + rest;
    var text := TomlItems(items).value + closing;
    if items == [] {
      assert text == closing && closing[1..] == rest;
    } else {
      hide SkipBlanks, AnyDelete;
      var first := TomlValue(items[0]).value;
      FirstCharacter(items[0]);
      assert text[0] == first[0];
      AnyDeleteSplit(items);
      if |items| == 1 {
        assert text == first + closing && items[1..] == [];
        NothingDeleted();
        ValueRoundTrip(items[0], closing);
        NoBlanks(closing);
        assert closing[1..] == rest && items == [items[0]];
      } else {
        var more := TomlItems(items[1..]).value + closing;
        assert text == first + (", " + more);
        ValueRoundTrip(items[0], ", " + more);
        ItemsRoundTrip(items[1..], rest);
        NoBlanks(", " + more);
        OneBlank(items[1..], rest);
        assert (", " + more)[1..] == " " + more;
        assert items == [items[0]] + items[1..];
      }
    }
  }

  lemma OneBlank(items: seq<Value>, rest: string)
    requires TomlItems(items).Some?
    ensures SkipBlanks(" " + (TomlItems(items).value + ("]" + rest))) == TomlItems(items).value + ("]" + rest)
  {
    hide TomlItems;
    var more := TomlItems(items).value + ("]" + rest);
    ItemsStart(items, rest);
    assert (" " + more)[1..] == more;
  }

  lemma NothingDeleted()
    ensures !AnyDelete([])
  {
  }

  lemma AnyDeleteSplit(items: seq<Value>)
    requires items != []
    ensures AnyDelete(items) <==> HasDelete(items[0]) || AnyDelete(items[1..])
  {
    hide HasDelete;
    assert forall i :: 0 <= i < |items| - 1 ==> items[1..][i] == items[i + 1];
    if AnyDelete(items) && !HasDelete(items[0]) {
      var i :| 0 <= i < |items| && HasDelete(items[i]);
      assert HasDelete(items[1..][i - 1]);
    }
    if AnyDelete(items[1..]) {
      var i :| 0 <= i < |items| - 1 && HasDelete(items[1..][i]);
      assert HasDelete(items[i + 1]);
    }
  }

  lemma {:induction false} RenderableItems(items: seq<Value>)
    ensures TomlItems(items).Some? <==> forall i :: 0 <= i < |items| ==> Renderable(items[i])
    decreases items, 0
  {
    hide TomlValue, Renderable;
    if items != [] {
      RenderableValue(items[0]);
      RenderableItems(items[1..]);
      assert forall i :: 0 <= i < |items| - 1 ==> items[1..][i] == items[i + 1];
      if forall i :: 0 <= i < |items| - 1 ==> Renderable(items[1..][i]) {
        forall i | 1 <= i < |items| ensures Renderable(items[i]) {
          assert items[1..][i - 1] == items[i];
        }
      }
    }
  }

  /** The renderer raises exactly for values that contain an unsupported type. */
  lemma {:induction false} RenderableValue(value: Value)
    ensures TomlValue(value).Some? <==> Renderable(value)
    decreases value, 1
  {
    hide TomlItems;
    if value.List? {
      RenderableItems(value.items);
    }
  }

  /** Rendered values read back exactly when they hold no U+007F. */
  lemma RoundTripIffNoDelete(value: Value)
    requires Renderable(value)
    ensures TomlValue(value).Some?
    ensures ReadValue(TomlValue(value).value) == Some(Read(value, "")) <==> !HasDelete(value)
  {
    hide TomlValue, ReadValue, HasDelete, Renderable;
    RenderableValue(value);
    ValueRoundTrip(value, "");
    assert TomlValue(value).value + "" == TomlValue(value).value;
  }
}
