/** The JVM options of a Ghidra run: explicit bounds are added to inherited options, an equivalent
    inherited bound is accepted, a conflicting one refused. */
module JvmPolicy {
  import opened Results
  import opened Decimals
  import opened Sequences
  import opened ShellWords

  const MIN_HEAP_MIB := 1024
  const MAX_HEAP_MIB := 32768
  const MAX_CORE_LIMIT := 32

  const HEAP_PREFIX := "-Xmx"
  const LIMIT_PREFIX := "-Dcpu.core.limit="
  const OVERRIDE_PREFIX := "-Dcpu.core.override="

  datatype PolicyError =
    | Unreadable(reason: LexError)
    | MultipleHeaps
    | HeapOutOfRange
    | HeapNotWholeMib(option: string)
    | UnsupportedHeap(option: string)
    | HeapConflict(inherited: int)
    | MultipleCoreLimits
    | CoreLimitOutOfRange
    | InvalidCoreLimit(option: string)
    | CoreConflict(inherited: int)

  // ---------- Heap options ----------

  predicate IsUnit(c: char) { c in "kKmMgG" }

  datatype HeapSize = HeapSize(digits: string, unit: Option<char>)

  /** An `-Xmx` option: a number without leading zeros, then at most one unit letter. */
  function SplitHeap(option: string): (r: Option<HeapSize>)
    ensures r.Some? ==> AllDigits(r.value.digits) && (r.value.unit.Some? ==> IsUnit(r.value.unit.value))
  {
    if !(HEAP_PREFIX <= option) then None
    else
      var body := option[|HEAP_PREFIX|..];
      var hasUnit := body != [] && IsUnit(body[|body| - 1]);
      var amount := if hasUnit then body[..|body| - 1] else body;
      if amount != [] && AllDigits(amount) && amount[0] != '0' then
        Some(HeapSize(amount, if hasUnit then Some(body[|body| - 1]) else None))
      else None
  }

  function Lower(unit: Option<char>): Option<char> {
    match unit
    case Some('K') => Some('k')
    case Some('M') => Some('m')
    case Some('G') => Some('g')
    case _ => unit
  }

  const MIB := 0x10_0000

  /** How many MiB a heap option denotes; None for an option of another form. */
  function HeapMib(option: string): (r: Result<Option<int>, PolicyError>)
    ensures r.Failure? ==> r.error == HeapNotWholeMib(option)
  {
    match SplitHeap(option)
    case None => Success(None)
    case Some(size) =>
      var amount, unit := ValueOf(size.digits), Lower(size.unit);
      if unit == Some('g') then Success(Some(amount * 1024))
      else if unit in {None, Some('k')} then
        var divisor := if unit == None then 1024 * 1024 else 1024;
        if amount % divisor != 0 then Failure(HeapNotWholeMib(option)) else Success(Some(amount / divisor))
      else Success(Some(amount))
  }

  /** The bytes that a heap option stands for. */
  function HeapBytes(option: string): Option<int> {
    match SplitHeap(option)
    case None => None
    case Some(size) => Some(ValueOf(size.digits) * BytesPer(size.unit))
  }

  function BytesPer(unit: Option<char>): int {
    match unit
    case None => 1
    case Some(c) => if c in "gG" then 0x4000_0000 else if c in "kK" then 0x400 else MIB
  }

  lemma WholeBytes(amount: nat, mib: int)
    ensures amount % MIB == 0 && amount / MIB == mib <==> amount == mib * MIB
  {
  }

  lemma BytesOfMib(mib: int)
    ensures (mib * MIB) % MIB == 0 && (mib * MIB) / MIB == mib
  {
  }

  lemma WholeKib(amount: nat, mib: int)
    ensures amount % 1024 == 0 && amount / 1024 == mib <==> amount * 0x400 == mib * MIB
    ensures amount % 1024 == 0 <==> (amount * 0x400) % MIB == 0
  {
    var whole, rest := amount / 1024, amount % 1024;
    assert amount * 0x400 == whole * MIB + rest * 0x400;
  }

  lemma WholeGib(amount: nat)
    ensures (amount * 0x4000_0000) % MIB == 0 && (amount * MIB) % MIB == 0
  {
    var mib := amount * 1024;
    assert amount * 0x4000_0000 == mib * MIB;
  }

  /** What a heap option amounts to, by the bytes that it stands for, in whatever unit: as many MiB as
      the bytes make, refused if they make no whole number, and nothing for another form. */
  lemma HeapMibIffBytes(option: string, mib: int)
    ensures HeapMib(option) == Success(Some(mib)) <==> HeapBytes(option) == Some(mib * MIB)
    ensures HeapMib(option).Failure? <==> HeapBytes(option).Some? && HeapBytes(option).value % MIB != 0
    ensures HeapMib(option) == Success(None) <==> HeapBytes(option) == None
  {
    hide SplitHeap, ValueOf;
    var split := SplitHeap(option);
    if split.Some? {
      var amount, unit := ValueOf(split.value.digits), split.value.unit;
      WholeBytes(amount, mib);
      WholeKib(amount, mib);
      WholeGib(amount);
      assert unit.Some? ==> unit.value in {'k', 'K', 'm', 'M', 'g', 'G'};
    }
  }

  // ---------- Core limits ----------

  predicate IsCoreLimit(token: string) {
    LIMIT_PREFIX <= token || OVERRIDE_PREFIX <= token
  }

  /** Digits with single underscores between them. */
  function Unscored(s: string): (r: Option<string>)
    ensures r.Some? ==> r.value != [] && AllDigits(r.value)
  {
    if s == [] || !IsDigit(s[|s| - 1]) then None
    else if |s| == 1 then Some(s)
    else
      var front := if s[|s| - 2] == '_' then s[..|s| - 2] else s[..|s| - 1];
      match Unscored(front)
      case None => None
      case Some(digits) => Some(digits + [s[|s| - 1]])
  }

  /** Python's `int` on ASCII text. */
  function ParseInt(text: string): Option<int> {
    var s := Strip(text);
    var signed := s != [] && s[0] in "+-";
    match Unscored(if signed then s[1..] else s)
    case None => None
    case Some(digits) =>
      var amount: int := ValueOf(digits);
      Some(if signed && s[0] == '-' then -amount else amount)
  }

  /** What stands behind the first equals sign of a core limit. */
  function CoreValue(token: string): Option<int> {
    if LIMIT_PREFIX <= token then ParseInt(token[|LIMIT_PREFIX|..])
    else if OVERRIDE_PREFIX <= token then ParseInt(token[|OVERRIDE_PREFIX|..])
    else None
  }

  // ---------- The policy ----------

  predicate IsHeap(token: string) { HEAP_PREFIX <= token }

  function HeapToken(mib: nat): string {
    HEAP_PREFIX + (Digits(mib) + "m")
  }

  function CoreToken(limit: nat): string {
    LIMIT_PREFIX + Digits(limit)
  }

  /** When a requested heap is compatible with the inherited tokens. */
  ghost predicate HeapAccepted(tokens: seq<string>, heap: Option<int>) {
    var heaps := Select(tokens, IsHeap);
    && |heaps| <= 1
    && (heap.Some? ==>
          && MIN_HEAP_MIB <= heap.value <= MAX_HEAP_MIB
          && (heaps != [] ==> HeapBytes(heaps[0]) == Some(heap.value * MIB)))
  }

  ghost predicate CoreAccepted(tokens: seq<string>, limit: Option<int>) {
    var limits := Select(tokens, IsCoreLimit);
    && |limits| <= 1
    && (limit.Some? ==>
          && 1 <= limit.value <= MAX_CORE_LIMIT
          && (limits != [] ==> CoreValue(limits[0]) == Some(limit.value)))
  }

  function Added(tokens: seq<string>, heap: Option<int>, limit: Option<int>): seq<string> {
    (if heap.Some? && heap.value >= 0 && Select(tokens, IsHeap) == [] then [HeapToken(heap.value)] else [])
    + (if limit.Some? && limit.value >= 0 && Select(tokens, IsCoreLimit) == [] then [CoreToken(limit.value)] else [])
  }

  /** What is wrong with the heap, if anything. */
  function HeapError(tokens: seq<string>, heap: Option<int>): Option<PolicyError> {
    var heaps := Select(tokens, IsHeap);
    if |heaps| > 1 then Some(MultipleHeaps)
    else if heap.None? then None
    else if !(MIN_HEAP_MIB <= heap.value <= MAX_HEAP_MIB) then Some(HeapOutOfRange)
    else if heaps == [] then None
    else
      match HeapBytes(heaps[0])
      case None => Some(UnsupportedHeap(heaps[0]))
      case Some(bytes) =>
        if bytes % MIB != 0 then Some(HeapNotWholeMib(heaps[0]))
        else if bytes != heap.value * MIB then Some(HeapConflict(bytes / MIB))
        else None
  }

  /** What is wrong with the core limit, if anything. */
  function CoreError(tokens: seq<string>, limit: Option<int>): Option<PolicyError> {
    var limits := Select(tokens, IsCoreLimit);
    if |limits| > 1 then Some(MultipleCoreLimits)
    else if limit.None? then None
    else if !(1 <= limit.value <= MAX_CORE_LIMIT) then Some(CoreLimitOutOfRange)
    else if limits == [] then None
    else
      match CoreValue(limits[0])
      case None => Some(InvalidCoreLimit(limits[0]))
      case Some(value) => if value != limit.value then Some(CoreConflict(value)) else None
  }

  /** The inherited tokens with the bounds added, or the first error, the heap's before the core limit's. */
  function Bounded(tokens: seq<string>, heap: Option<int>, limit: Option<int>): Result<seq<string>, PolicyError> {
    if HeapError(tokens, heap).Some? then Failure(HeapError(tokens, heap).value)
    else if CoreError(tokens, limit).Some? then Failure(CoreError(tokens, limit).value)
    else Success(tokens + Added(tokens, heap, limit))
  }

  /** A heap is requested within the range, and one is inherited. */
  ghost predicate HeapCompared(tokens: seq<string>, heap: Option<int>) {
    |Select(tokens, IsHeap)| == 1 && heap.Some? && MIN_HEAP_MIB <= heap.value <= MAX_HEAP_MIB
  }

  /** The heap is accepted, a core limit is requested within the range, and one is inherited. */
  ghost predicate LimitCompared(tokens: seq<string>, heap: Option<int>, limit: Option<int>) {
    && HeapAccepted(tokens, heap)
    && |Select(tokens, IsCoreLimit)| == 1 && limit.Some? && 1 <= limit.value <= MAX_CORE_LIMIT
  }

  /** The bounds added to inherited tokens, and exactly when each error is raised. */
  method BoundTokens(heap: Option<int>, limit: Option<int>, inherited: seq<string>) returns (r: Result<seq<string>, PolicyError>)
    ensures r == Bounded(inherited, heap, limit)
    ensures r.Success? <==> HeapAccepted(inherited, heap) && CoreAccepted(inherited, limit)
    ensures r.Success? ==> r.value == inherited + Added(inherited, heap, limit)
    ensures r == Failure(MultipleHeaps) <==> |Select(inherited, IsHeap)| > 1
    ensures r == Failure(HeapOutOfRange) <==>
      && |Select(inherited, IsHeap)| <= 1
      && heap.Some? && !(1024 <= heap.value <= 32768)
    ensures forall option :: r == Failure(HeapNotWholeMib(option)) <==>
      && HeapCompared(inherited, heap) && Select(inherited, IsHeap)[0] == option
      && HeapBytes(option).Some? && HeapBytes(option).value % MIB != 0
    ensures forall option :: r == Failure(UnsupportedHeap(option)) <==>
      HeapCompared(inherited, heap) && Select(inherited, IsHeap)[0] == option && HeapBytes(option) == None
    ensures forall mib: int {:trigger HeapConflict(mib)} :: r == Failure(HeapConflict(mib)) <==>
      HeapCompared(inherited, heap) && HeapBytes(Select(inherited, IsHeap)[0]) == Some(mib * MIB) && mib != heap.value
    ensures r == Failure(MultipleCoreLimits) <==>
      HeapAccepted(inherited, heap) && |Select(inherited, IsCoreLimit)| > 1
    ensures r == Failure(CoreLimitOutOfRange) <==>
      && HeapAccepted(inherited, heap) && |Select(inherited, IsCoreLimit)| <= 1
      && limit.Some? && !(1 <= limit.value <= 32)
    ensures forall token :: r == Failure(InvalidCoreLimit(token)) <==>
      LimitCompared(inherited, heap, limit) && Select(inherited, IsCoreLimit)[0] == token && CoreValue(token) == None
    ensures forall value :: r == Failure(CoreConflict(value)) <==>
      LimitCompared(inherited, heap, limit) && CoreValue(Select(inherited, IsCoreLimit)[0]) == Some(value) && value != limit.value
    ensures !(r.Failure? && r.error.Unreadable?)
  {
    hide HeapMib, HeapBytes, HeapToken, CoreToken, CoreValue, Select, IsHeap, IsCoreLimit;
    var parsed := inherited;
    var heaps := Select(parsed, IsHeap);
    if |heaps| > 1 {
      return Failure(MultipleHeaps);
    }
    if heap.Some? {
      if heap.value < MIN_HEAP_MIB || heap.value > MAX_HEAP_MIB {
        return Failure(HeapOutOfRange);
      }
      if heaps != [] {
        HeapMibIffBytes(heaps[0], heap.value);
        var inheritedHeap := HeapMib(heaps[0]);
        if inheritedHeap.Failure? {
          return Failure(inheritedHeap.error);
        }
        if inheritedHeap.value.None? {
          return Failure(UnsupportedHeap(heaps[0]));
        }
        HeapMibIffBytes(heaps[0], inheritedHeap.value.value);
        BytesOfMib(inheritedHeap.value.value);
        BytesOfMib(heap.value);
        if inheritedHeap.value.value != heap.value {
          return Failure(HeapConflict(inheritedHeap.value.value));
        }
      } else {
        HeapTokenIsNoLimit(heap.value);
        SelectSnoc(parsed, HeapToken(heap.value), IsCoreLimit);
        assert Select(parsed, IsCoreLimit) + [] == Select(parsed, IsCoreLimit);
        parsed := parsed + [HeapToken(heap.value)];
      }
    }
    var limits := Select(parsed, IsCoreLimit);
    if |limits| > 1 {
      return Failure(MultipleCoreLimits);
    }
    if limit.Some? {
      if limit.value < 1 || limit.value > MAX_CORE_LIMIT {
        return Failure(CoreLimitOutOfRange);
      }
      if limits != [] {
        var inheritedLimit := CoreValue(limits[0]);
        if inheritedLimit.None? {
          return Failure(InvalidCoreLimit(limits[0]));
        }
        if inheritedLimit.value != limit.value {
          return Failure(CoreConflict(inheritedLimit.value));
        }
      } else {
        parsed := parsed + [CoreToken(limit.value)];
      }
    }
    assert parsed == inherited + Added(inherited, heap, limit);
    r := Success(parsed);
  }

  lemma HeapTokenIsNoLimit(mib: nat)
    ensures IsHeap(HeapToken(mib)) && !IsCoreLimit(HeapToken(mib))
  {
    assert HeapToken(mib)[1] == 'X' && LIMIT_PREFIX[1] == OVERRIDE_PREFIX[1] == 'D';
  }

  lemma CoreTokenIsNoHeap(limit: nat)
    ensures IsCoreLimit(CoreToken(limit)) && !IsHeap(CoreToken(limit))
  {
    assert CoreToken(limit)[1] == 'D' && HEAP_PREFIX[1] == 'X';
  }

  // ---------- What the options say ----------

  /** The token the policy adds denotes the requested heap. */
  lemma HeapTokenDenotes(mib: nat)
    requires mib > 0
    ensures HeapBytes(HeapToken(mib)) == Some(mib * MIB)
  {
    var option := HeapToken(mib);
    DigitsValue(mib);
    var body := option[|HEAP_PREFIX|..];
    assert body == Digits(mib) + "m";
    assert body[|body| - 1] == 'm' && IsUnit('m') && body[..|body| - 1] == Digits(mib);
    assert SplitHeap(option) == Some(HeapSize(Digits(mib), Some('m')));
  }

  lemma {:induction false} UnscoredDigits(digits: string)
    requires digits != [] && AllDigits(digits)
    ensures Unscored(digits) == Some(digits)
  {
    if |digits| > 1 {
      UnscoredDigits(digits[..|digits| - 1]);
      assert digits == digits[..|digits| - 1] + [digits[|digits| - 1]];
      assert IsDigit(digits[|digits| - 2]);
    }
  }

  lemma CoreTokenDenotes(limit: nat)
    ensures CoreValue(CoreToken(limit)) == Some(limit)
  {
    hide Digits;
    var token := CoreToken(limit);
    DigitsValue(limit);
    UnscoredDigits(Digits(limit));
    assert LIMIT_PREFIX <= token && token[|LIMIT_PREFIX|..] == Digits(limit);
    var first, last := Digits(limit)[0], Digits(limit)[|Digits(limit)| - 1];
    assert IsDigit(first) && first != '+' && first != '-';
    assert IsDigit(last) && !IsStripped(first) && !IsStripped(last);
    StripNothing(Digits(limit));
    assert first !in "+-";
  }

  /** The options of a run: one heap token for the request, the inherited tokens in their order, and
      a fixed point: under the same bounds they are accepted and nothing is added. */
  lemma OptionsAreAFixedPoint(tokens: seq<string>, heap: Option<int>, limit: Option<int>)
    requires HeapAccepted(tokens, heap) && CoreAccepted(tokens, limit)
    ensures var options := tokens + Added(tokens, heap, limit);
      && HeapAccepted(options, heap) && CoreAccepted(options, limit) && Added(options, heap, limit) == []
      && (heap.Some? ==> |Select(options, IsHeap)| == 1 && HeapBytes(Select(options, IsHeap)[0]) == Some(heap.value * MIB))
      && (limit.Some? ==> |Select(options, IsCoreLimit)| == 1 && CoreValue(Select(options, IsCoreLimit)[0]) == Some(limit.value))
  {
    hide Select, HeapBytes, CoreValue, HeapToken, CoreToken, IsHeap, IsCoreLimit;
    var withHeap := tokens + if heap.Some? && Select(tokens, IsHeap) == [] then [HeapToken(heap.value)] else [];
    if heap.Some? {
      HeapTokenIsNoLimit(heap.value);
      HeapTokenDenotes(heap.value);
      SelectSnoc(tokens, HeapToken(heap.value), IsHeap);
      SelectSnoc(tokens, HeapToken(heap.value), IsCoreLimit);
    }
    if limit.Some? {
      CoreTokenIsNoHeap(limit.value);
      CoreTokenDenotes(limit.value);
      SelectSnoc(withHeap, CoreToken(limit.value), IsHeap);
      SelectSnoc(withHeap, CoreToken(limit.value), IsCoreLimit);
    }
    assert tokens + [] == tokens && withHeap + [] == withHeap;
    var options := tokens + Added(tokens, heap, limit);
    assert options == withHeap + if limit.Some? && Select(tokens, IsCoreLimit) == [] then [CoreToken(limit.value)] else [];
  }

  // ---------- How options are spelled ----------

  lemma TokenKinds(token: string)
    ensures IsHeap(token) <==> "-Xmx" <= token
    ensures IsCoreLimit(token) <==> "-Dcpu.core.limit=" <= token || "-Dcpu.core.override=" <= token
  {
  }

  /** The bytes of a unit, by its letter. */
  ghost function UnitBytes(unit: string): int {
    if unit == "k" || unit == "K" then 1024
    else if unit == "m" || unit == "M" then 1048576
    else if unit == "g" || unit == "G" then 1073741824
    else 1
  }

  /** A heap option: a number without leading zeros, and the letter of a unit or none. */
  ghost predicate HeapSpelled(option: string, digits: string, unit: string) {
    && option == "-Xmx" + digits + unit
    && digits != [] && AllDigits(digits) && digits[0] != '0'
    && unit in {"", "k", "K", "m", "M", "g", "G"}
  }

  lemma UnitOf(unit: string)
    ensures unit in {"k", "K", "m", "M", "g", "G"} <==> |unit| == 1 && IsUnit(unit[0])
    ensures |unit| == 1 && IsUnit(unit[0]) ==> BytesPer(Some(unit[0])) == UnitBytes(unit)
    ensures BytesPer(None) == UnitBytes("")
  {
    if |unit| == 1 {
      assert unit == [unit[0]];
      assert "kKmMgG"[0] == 'k' && "kKmMgG"[1] == 'K' && "kKmMgG"[2] == 'm' && "kKmMgG"[3] == 'M' && "kKmMgG"[4] == 'g' && "kKmMgG"[5] == 'G';
    }
  }

  lemma HeapSpelling(option: string, bytes: int)
    ensures HeapBytes(option) == Some(bytes) <==>
      exists digits, unit :: HeapSpelled(option, digits, unit) && bytes == ValueOf(digits) * UnitBytes(unit)
  {
    hide ValueOf, BytesPer, UnitBytes, IsUnit;
    if HeapBytes(option) == Some(bytes) {
      var size := SplitHeap(option).value;
      var unit := if size.unit.Some? then [size.unit.value] else "";
      UnitOf(unit);
      assert option == HEAP_PREFIX + option[|HEAP_PREFIX|..];
      assert option == "-Xmx" + size.digits + unit;
      assert HeapSpelled(option, size.digits, unit) && bytes == ValueOf(size.digits) * UnitBytes(unit);
    }
    forall digits, unit | HeapSpelled(option, digits, unit) && bytes == ValueOf(digits) * UnitBytes(unit)
      ensures HeapBytes(option) == Some(bytes)
    {
      UnitOf(unit);
      HeapRead(digits, unit);
      assert "-Xmx" + digits + unit == "-Xmx" + (digits + unit);
    }
  }

  lemma HeapRead(digits: string, unit: string)
    requires digits != [] && AllDigits(digits) && digits[0] != '0' && (unit == "" || (|unit| == 1 && IsUnit(unit[0])))
    ensures SplitHeap("-Xmx" + (digits + unit)) == Some(HeapSize(digits, if unit == "" then None else Some(unit[0])))
  {
    var option, body := "-Xmx" + (digits + unit), digits + unit;
    assert option[|HEAP_PREFIX|..] == body;
    assert IsDigit(digits[|digits| - 1]);
    assert unit == "" ==> body == digits;
    assert unit != "" ==> body[|body| - 1] == unit[0] && body[..|body| - 1] == digits;
  }

  /** Digits, with single underscores between some of them. */
  ghost predicate Grouped(body: string) {
    && body != [] && IsDigit(body[0]) && IsDigit(body[|body| - 1])
    && (forall i :: 0 <= i < |body| ==> IsDigit(body[i]) || body[i] == '_')
    && (forall i :: 0 < i < |body| && body[i] == '_' ==> body[i - 1] != '_')
  }

  lemma {:induction false} UnscoredIff(s: string)
    ensures Unscored(s).Some? <==> Grouped(s)
    ensures Unscored(s).Some? ==> Unscored(s).value == Select(s, IsDigit)
  {
    hide Select;
    NothingSelected();
    if s == [] || !IsDigit(s[|s| - 1]) {
    } else {
      var n := |s| - 1;
      assert s == s[..n] + [s[n]];
      SelectSnoc(s[..n], s[n], IsDigit);
      if n == 0 {
        assert s[..0] == [];
      } else if s[n - 1] == '_' {
        assert s[..n] == s[..n - 1] + ['_'];
        SelectSnoc(s[..n - 1], '_', IsDigit);
        UnscoredIff(s[..n - 1]);
        GroupedTail(s);
      } else {
        UnscoredIff(s[..n]);
      }
    }
  }

  lemma NothingSelected()
    ensures Select("", IsDigit) == ""
  {
  }

  lemma GroupedTail(s: string)
    requires |s| >= 2 && IsDigit(s[|s| - 1]) && s[|s| - 2] == '_'
    ensures Grouped(s) <==> Grouped(s[..|s| - 2])
  {
    var n := |s| - 2;
    var front := s[..n];
    if Grouped(s) {
      assert s[n] == '_' && n > 0 && s[n - 1] != '_';
      assert IsDigit(front[n - 1]);
    }
    if Grouped(front) {
      assert front[n - 1] == s[n - 1];
      forall i | 0 <= i < |s|
        ensures IsDigit(s[i]) || s[i] == '_'
      {
        assert i < n ==> front[i] == s[i];
      }
      forall i | 0 < i < |s| && s[i] == '_'
        ensures s[i - 1] != '_'
      {
        assert i < n ==> front[i] == s[i] && front[i - 1] == s[i - 1];
      }
    }
  }

  /** An integer as Python reads it: between characters that are stripped, a sign or none, and grouped digits. */
  ghost predicate IntSpelled(text: string, a: string, sign: string, body: string, b: string, value: int) {
    && text == a + (sign + body) + b && AllStripped(a) && AllStripped(b)
    && sign in {"", "+", "-"} && Grouped(body)
    && AllDigits(Select(body, IsDigit))
    && value == if sign == "-" then 0 - ValueOf(Select(body, IsDigit)) else ValueOf(Select(body, IsDigit))
  }

  lemma IntSpelling(text: string, value: int)
    ensures ParseInt(text) == Some(value) <==> exists a, sign, body, b :: IntSpelled(text, a, sign, body, b, value)
  {
    hide ValueOf, Unscored, Strip, Grouped, Select, IsStripped, AllStripped;
    if ParseInt(text) == Some(value) {
      var a, b := StripParts(text);
      var s := Strip(text);
      var signed := s != [] && s[0] in "+-";
      var sign, body := if signed then [s[0]] else "", if signed then s[1..] else s;
      assert s == sign + body;
      UnscoredIff(body);
      assert IntSpelled(text, a, sign, body, b, value);
    }
    forall a, sign, body, b | IntSpelled(text, a, sign, body, b, value)
      ensures ParseInt(text) == Some(value)
    {
      IntRead(a, sign, body, b);
      UnscoredIff(body);
      assert sign == "" ==> Strip(text)[0..] == Strip(text);
    }
  }

  lemma IntRead(a: string, sign: string, body: string, b: string)
    requires AllStripped(a) && AllStripped(b) && sign in {"", "+", "-"} && Grouped(body)
    ensures var s := Strip(a + (sign + body) + b);
      && s == sign + body && s != []
      && (s[0] in "+-" <==> sign != "") && (s[0] == '-' <==> sign == "-")
      && s[|sign|..] == body && |sign| <= 1
  {
    hide AllStripped, Strip;
    var s := sign + body;
    DigitsAreSharp();
    assert !IsStripped('+');
    assert s[|s| - 1] == body[|body| - 1];
    assert IsDigit(body[0]) && body[0] !in "+-";
    StripBetween(a, s, b);
  }

  /** What a core limit says: the integer behind either of the two names. */
  lemma CoreSpelling(token: string, value: int)
    ensures CoreValue(token) == Some(value) <==> exists text ::
      (token == "-Dcpu.core.limit=" + text || token == "-Dcpu.core.override=" + text) && ParseInt(text) == Some(value)
  {
    hide ParseInt;
    if CoreValue(token) == Some(value) {
      var prefix := if LIMIT_PREFIX <= token then LIMIT_PREFIX else OVERRIDE_PREFIX;
      assert token == prefix + token[|prefix|..];
    }
    forall text | (token == "-Dcpu.core.limit=" + text || token == "-Dcpu.core.override=" + text) && ParseInt(text) == Some(value)
      ensures CoreValue(token) == Some(value)
    {
      if token == "-Dcpu.core.limit=" + text {
        assert token[|LIMIT_PREFIX|..] == text;
      } else {
        assert token[|OVERRIDE_PREFIX|..] == text;
        assert token[11] == 'o' && LIMIT_PREFIX[11] == 'l';
      }
    }
  }

  // ---------- As text ----------

  /** From text to text: what is inherited is stripped and split, the bounds are added, and the options
      are joined with blanks. */
  function Printed(text: string, heap: Option<int>, limit: Option<int>): Result<string, PolicyError> {
    match Read(text)
    case Failure(reason) => Failure(Unreadable(reason))
    case Success(tokens) =>
      match Bounded(tokens, heap, limit)
      case Failure(error) => Failure(error)
      case Success(options) => Success(Join(options))
  }

  /** The options of a run as text. */
  method JavaOptions(heap: Option<int>, limit: Option<int>, inherited: string) returns (r: Result<string, PolicyError>)
    ensures r == Printed(inherited, heap, limit)
    ensures r.Success? <==>
      && Read(inherited).Success?
      && HeapAccepted(Read(inherited).value, heap) && CoreAccepted(Read(inherited).value, limit)
    ensures r.Success? ==> r.value == Join(Read(inherited).value + Added(Read(inherited).value, heap, limit))
    ensures Read(inherited).Failure? ==> r == Failure(Unreadable(Read(inherited).error))
  {
    hide Read, HeapAccepted, CoreAccepted, Added, HeapError, CoreError;
    var parsed := Read(inherited);
    if parsed.Failure? {
      return Failure(Unreadable(parsed.error));
    }
    var bounded := BoundTokens(heap, limit, parsed.value);
    if bounded.Failure? {
      return Failure(bounded.error);
    }
    r := Success(Join(bounded.value));
  }

  /** A prefix without blanks or quotes, with a number behind it, survives being printed. */
  lemma NumberedSurvives(prefix: string, n: nat, suffix: string)
    requires Survive([prefix]) && prefix != [] && (suffix == "" || suffix == "m")
    ensures Survive([prefix + (Digits(n) + suffix)])
  {
    hide Digits, IsStripped;
    DigitsAreSharp();
    var digits := Digits(n);
    var word := prefix + (digits + suffix);
    assert Plain([prefix][0]);
    forall i | 0 <= i < |word| ensures !IsSpace(word[i]) && !IsSpecial(word[i]) {
      assert i < |prefix| ==> word[i] == prefix[i];
      assert |prefix| <= i < |prefix| + |digits| ==> word[i] == digits[i - |prefix|];
    }
    assert word[0] == prefix[0];
    assert word[|word| - 1] == if suffix == "m" then 'm' else digits[|digits| - 1];
  }

  lemma PrefixesSurvive()
    ensures Survive([HEAP_PREFIX]) && Survive([LIMIT_PREFIX])
  {
  }

  /** The tokens the policy adds survive being printed. */
  lemma AddedSurvive(tokens: seq<string>, heap: Option<int>, limit: Option<int>)
    ensures Survive(Added(tokens, heap, limit))
    ensures forall i :: 0 <= i < |Added(tokens, heap, limit)| ==> Survive([Added(tokens, heap, limit)[i]])
  {
    hide Digits, Select, IsStripped, Plain;
    PrefixesSurvive();
    if heap.Some? && heap.value >= 0 {
      NumberedSurvives(HEAP_PREFIX, heap.value, "m");
    }
    if limit.Some? && limit.value >= 0 {
      NumberedSurvives(LIMIT_PREFIX, limit.value, "");
      assert Digits(limit.value) + "" == Digits(limit.value);
    }
  }

  lemma DigitsAreSharp()
    ensures !IsStripped('-') && !IsStripped('m') && forall c :: IsDigit(c) ==> !IsStripped(c)
  {
  }

  /** The inherited tokens decide: options survive being printed exactly when every inherited token is
      plain, the first one does not begin with a character that is stripped, and, if no bound is added,
      the last one does not end with one. */
  lemma OptionsSurviveIff(tokens: seq<string>, heap: Option<int>, limit: Option<int>)
    ensures var added := Added(tokens, heap, limit);
      Survive(tokens + added) <==>
        && AllPlain(tokens)
        && (tokens != [] ==>
              var last := tokens[|tokens| - 1];
              !IsStripped(tokens[0][0]) && (added == [] ==> !IsStripped(last[|last| - 1])))
  {
    hide Added, AllPlain, Survive, IsStripped;
    AddedSurvive(tokens, heap, limit);
    SurviveConcat(tokens, Added(tokens, heap, limit));
  }

  /** The printed options read back as the same options exactly when the options survive being printed;
      then the same bounds are accepted again, and the same text is printed again. */
  lemma OptionsReadBackIff(text: string, heap: Option<int>, limit: Option<int>)
    requires Read(text).Success? && HeapAccepted(Read(text).value, heap) && CoreAccepted(Read(text).value, limit)
    ensures var options := Read(text).value + Added(Read(text).value, heap, limit);
      && (Read(Join(options)) == Success(options) <==> Survive(options))
      && HeapAccepted(options, heap) && CoreAccepted(options, limit)
      && Join(options + Added(options, heap, limit)) == Join(options)
  {
    hide Read, Join, Added, HeapAccepted, CoreAccepted, Survive;
    var tokens := Read(text).value;
    var options := tokens + Added(tokens, heap, limit);
    ReadsBackIff(options);
    OptionsAreAFixedPoint(tokens, heap, limit);
    assert options + [] == options;
  }

  lemma AcceptedIsBounded(tokens: seq<string>, heap: Option<int>, limit: Option<int>)
    ensures Bounded(tokens, heap, limit).Success? <==> HeapAccepted(tokens, heap) && CoreAccepted(tokens, limit)
  {
    hide Select, HeapBytes, CoreValue, IsHeap, IsCoreLimit, Added;
    if heap.Some? {
      BytesOfMib(heap.value);
    }
  }

  /** Nothing that the policy would add stands among the tokens already. */
  lemma AddedIsNew(tokens: seq<string>, heap: Option<int>, limit: Option<int>, i: nat)
    requires i < |Added(tokens, heap, limit)|
    ensures Added(tokens, heap, limit)[i] !in tokens
  {
    hide Select, HeapToken, CoreToken, IsHeap, IsCoreLimit;
    SelectMembers(tokens, IsHeap);
    SelectMembers(tokens, IsCoreLimit);
    if heap.Some? && heap.value >= 0 {
      HeapTokenIsNoLimit(heap.value);
    }
    if limit.Some? && limit.value >= 0 {
      CoreTokenIsNoHeap(limit.value);
    }
  }

  /** Text that is printed unchanged has had nothing added to it. */
  lemma NothingAddedToItself(text: string, heap: Option<int>, limit: Option<int>)
    requires Read(text).Success?
    requires Join(Read(text).value + Added(Read(text).value, heap, limit)) == text
    ensures Added(Read(text).value, heap, limit) == []
  {
    hide Read, Join, Added, Survive, Plain, IsStripped;
    var tokens := Read(text).value;
    var added := Added(tokens, heap, limit);
    AddedSurvive(tokens, heap, limit);
    if added != [] {
      var n := |added| - 1;
      var word, front := added[n], tokens + added[..n];
      AddedIsNew(tokens, heap, limit, n);
      OneWord(word);
      assert tokens + added == front + [word];
      if front == [] {
        assert [] + [word] == [word];
        JoinOne(word);
        ReadsBackIff([word]);
        assert false;
      } else {
        JoinSnoc(front, word);
        LastWordRead(Join(front), word);
        var last := tokens[|tokens| - 1];
        assert last in tokens;
        EachHasAnEnd(added, n);
        if n > 0 {
          assert front[|front| - 1] == added[n - 1];
          EachHasAnEnd(added, n - 1);
        } else {
          assert front == tokens;
        }
        JoinEndsWith(front);
      }
    }
  }

  lemma EachHasAnEnd(words: seq<string>, i: nat)
    requires Survive(words) && i < |words|
    ensures words[i] != [] && words[i][|words[i]| - 1] != '\\'
  {
    assert Plain(words[i]);
  }

  lemma JoinEndsWith(words: seq<string>)
    requires words != [] && words[|words| - 1] != []
    ensures var text, last := Join(words), words[|words| - 1]; text != [] && text[|text| - 1] == last[|last| - 1]
  {
    hide Join;
    JoinOne(words[0]);
    if |words| > 1 {
      JoinSnoc(words[..|words| - 1], words[|words| - 1]);
      assert words == words[..|words| - 1] + [words[|words| - 1]];
    } else {
      assert words == [words[0]];
    }
  }

  /** Exactly which texts are printed unchanged: normal ones whose words the policy accepts with nothing
      to add. */
  lemma PrintsItselfIff(text: string, heap: Option<int>, limit: Option<int>)
    ensures Printed(text, heap, limit) == Success(text) <==>
      && Normal(text) && Read(text).Success?
      && HeapAccepted(Read(text).value, heap) && CoreAccepted(Read(text).value, limit)
      && Added(Read(text).value, heap, limit) == []
  {
    hide Read, Join, Added, HeapAccepted, CoreAccepted, Normal, HeapError, CoreError;
    RejoinsIff(text);
    if Read(text).Success? {
      var tokens := Read(text).value;
      AcceptedIsBounded(tokens, heap, limit);
      assert tokens + [] == tokens;
      if Printed(text, heap, limit) == Success(text) {
        NothingAddedToItself(text, heap, limit);
      }
    }
  }

  /** Inherited text without quotes and backslashes always leads to options that survive. */
  lemma UnquotedOptionsSurvive(text: string, heap: Option<int>, limit: Option<int>)
    requires !HasSpecial(text)
    ensures Read(text).Success? && Survive(Read(text).value + Added(Read(text).value, heap, limit))
  {
    hide Read, Added, Plain, IsStripped;
    UnquotedSurvives(text);
    var tokens := Read(text).value;
    PlainHaveLetters(tokens);
    OptionsSurviveIff(tokens, heap, limit);
    AddedSurvive(tokens, heap, limit);
  }

  /** An inherited option that is quoted for a blank falls apart: from '-Da=b -Xmx1g' as one word the
      policy, asked for nothing, prints a text that sets a heap. */
  lemma QuotedOptionSetsAHeap()
    ensures var text := "'-Da=b -Xmx1g'";
      && Read(text) == Success(["-Da=b -Xmx1g"]) && Select(Read(text).value, IsHeap) == []
      && Read(Join(Read(text).value)) == Success(["-Da=b", "-Xmx1g"]) && IsHeap("-Xmx1g")
  {
    hide Read, Join, Survive;
    BareOptions();
    QuotedBlankFallsApart("-Da=b", "-Xmx1g");
    QuotedText();
    assert "-Da=b -Xmx1g"[1] == 'D' && HEAP_PREFIX[1] == 'X';
    SelectOne("-Da=b -Xmx1g", IsHeap);
  }

  lemma QuotedText()
    ensures "-Da=b" + " " + "-Xmx1g" == "-Da=b -Xmx1g" && "'" + "-Da=b -Xmx1g" + "'" == "'-Da=b -Xmx1g'"
  {
  }

  lemma BareOptions()
    ensures Survive(["-Da=b", "-Xmx1g"])
  {
    assert Plain("-Da=b") && Plain("-Xmx1g");
  }
}
