/** The filter state of the arbitrage page, parsed from URL query parameters and printed back into them. */
module QueryState {
  import opened Prelude

  const DEFAULT_LIMIT := 20
  const MAX_LIMIT := 100
  const MAX_SAFE_INTEGER := 9_007_199_254_740_991
  const DEFAULT_NORMALIZE := "365d"
  const NORMALIZATIONS := {"raw", "1h", "8h", "1d", "365d"}

  const PRESETS := {"8h", "1d", "3d", "7d", "14d", "30d", "90d"}

  /** Names every object inherits, which `in` finds on the label record although it does not list them. */
  const INHERITED_NAMES := {
    "constructor", "hasOwnProperty", "isPrototypeOf", "propertyIsEnumerable", "toLocaleString", "toString",
    "valueOf", "__proto__", "__defineGetter__", "__defineSetter__", "__lookupGetter__", "__lookupSetter__"
  }

  datatype Param = Param(key: string, value: string)

  type Params = seq<Param>

  datatype Period = Live | Preset(preset: string) | Custom(fromDate: string, toDate: string)

  datatype Filters = Filters(
    assets: seq<string>, sections: seq<string>, quotes: seq<string>, compareFor: Option<string>,
    period: Period, normalize: string, minDiff: Option<real>, offset: int, limit: int)

  const DEFAULT_FILTERS := Filters([], [], [], None, Live, DEFAULT_NORMALIZE, None, 0, DEFAULT_LIMIT)

  // ---- query parameters ----

  function GetAll(params: Params, key: string): seq<string> {
    if params == [] then [] else
      (if params[0].key == key then [params[0].value] else []) + GetAll(params[1..], key)
  }

  function Get(params: Params, key: string): Option<string> {
    var values := GetAll(params, key);
    if values == [] then None else Some(values[0])
  }

  function Without(params: Params, key: string): Params {
    if params == [] then [] else
      (if params[0].key == key then [] else [params[0]]) + Without(params[1..], key)
  }

  /** Replaces the first parameter of that name and drops the others, or appends a new one. */
  function SetParam(params: Params, key: string, value: string): Params {
    if params == [] then [Param(key, value)]
    else if params[0].key == key then [Param(key, value)] + Without(params[1..], key)
    else [params[0]] + SetParam(params[1..], key, value)
  }

  lemma {:induction false} SetNewParamAppends(params: Params, key: string, value: string)
    requires GetAll(params, key) == []
    ensures SetParam(params, key, value) == params + [Param(key, value)]
  {
    if params != [] {
      SetNewParamAppends(params[1..], key, value);
      assert params == [params[0]] + params[1..];
    }
  }

  lemma {:induction false} GetAllOfConcatenation(a: Params, b: Params, key: string)
    ensures GetAll(a + b, key) == GetAll(a, key) + GetAll(b, key)
  {
    if a == [] {
      assert a + b == b;
    } else {
      GetAllOfConcatenation(a[1..], b, key);
      assert (a + b)[1..] == a[1..] + b && (a + b)[0] == a[0];
      var first := if a[0].key == key then [a[0].value] else [];
      assert first + (GetAll(a[1..], key) + GetAll(b, key)) == (first + GetAll(a[1..], key)) + GetAll(b, key);
    }
  }

  // ---- decimal numbers ----

  function Digit(d: nat): char
    requires d < 10
  {
    '0' + d as char
  }

  predicate IsDigit(c: char) {
    '0' <= c <= '9'
  }

  function DecimalText(n: nat): string {
    if n < 10 then [Digit(n)] else DecimalText(n / 10) + [Digit(n % 10)]
  }

  function IntegerText(n: int): string {
    if n < 0 then "-" + DecimalText(-n) else DecimalText(n)
  }

  predicate IsWhiteSpace(c: char) {
    var code := c as int;
    || 0x9 <= code <= 0xD || code in {0x20, 0xA0, 0x1680, 0x202F, 0x205F, 0x3000, 0xFEFF}
    || 0x2000 <= code <= 0x200A || 0x2028 <= code <= 0x2029
  }

  function SkipSpace(s: string): string {
    if s != "" && IsWhiteSpace(s[0]) then SkipSpace(s[1..]) else s
  }

  function DigitPrefix(s: string): string {
    if s != "" && IsDigit(s[0]) then [s[0]] + DigitPrefix(s[1..]) else ""
  }

  function DecimalValue(digits: string): int {
    if digits == "" then 0 else
      10 * DecimalValue(digits[..|digits| - 1]) + (digits[|digits| - 1] as int - '0' as int)
  }

  /** `Number.parseInt(s, 10)`: blanks, a sign, then the longest run of digits; None is NaN. */
  function ParseInt(s: string): Option<int> {
    var t := SkipSpace(s);
    var signed := t != "" && (t[0] == '-' || t[0] == '+');
    var digits := DigitPrefix(if signed then t[1..] else t);
    if digits == "" then None
    else if signed && t[0] == '-' then Some(-DecimalValue(digits))
    else Some(DecimalValue(digits))
  }

  lemma {:induction false} DecimalTextIsDigits(n: nat)
    ensures DecimalText(n) != "" && forall i :: 0 <= i < |DecimalText(n)| ==> IsDigit(DecimalText(n)[i])
    ensures DecimalValue(DecimalText(n)) == n
  {
    if n >= 10 {
      DecimalTextIsDigits(n / 10);
      var text := DecimalText(n);
      assert text[..|text| - 1] == DecimalText(n / 10);
    } else {
      assert DecimalText(n)[..0] == "";
    }
  }

  lemma {:induction false} DigitPrefixOfDigits(s: string)
    requires forall i :: 0 <= i < |s| ==> IsDigit(s[i])
    ensures DigitPrefix(s) == s
  {
    if s != "" {
      DigitPrefixOfDigits(s[1..]);
      assert s == [s[0]] + s[1..];
    }
  }

  lemma DigitsAreNotSpace(c: char)
    requires IsDigit(c)
    ensures !IsWhiteSpace(c) && c != '-' && c != '+'
  {
  }

  lemma ParseIntOfDigits(n: nat)
    ensures ParseInt(DecimalText(n)) == Some(n)
    ensures ParseInt("-" + DecimalText(n)) == Some(-(n as int))
  {
    var digits := DecimalText(n);
    DecimalTextIsDigits(n);
    DigitPrefixOfDigits(digits);
    DigitsAreNotSpace(digits[0]);
    assert SkipSpace(digits) == digits;
    assert ("-" + digits)[0] == '-' && ("-" + digits)[1..] == digits;
    assert !IsWhiteSpace('-');
    assert SkipSpace("-" + digits) == "-" + digits;
  }

  /** Printed integers are read back. */
  lemma ParseIntOfText(n: int)
    ensures IntegerText(n) != "" && ParseInt(IntegerText(n)) == Some(n)
  {
    if n < 0 {
      ParseIntOfDigits(-n);
    } else {
      ParseIntOfDigits(n);
      DecimalTextIsDigits(n);
    }
  }

  // What the reader does with an arbitrary text, in its characters.

  /** Blanks by their code points: tabs, line ends and the space separators of Unicode. */
  ghost predicate AllSpace(s: string) {
    forall i :: 0 <= i < |s| ==>
      s[i] as int in {9, 10, 11, 12, 13, 32, 160, 5760, 8192, 8193, 8194, 8195, 8196, 8197, 8198, 8199, 8200, 8201,
                      8202, 8232, 8233, 8239, 8287, 12288, 65279}
  }

  ghost predicate AllDigits(s: string) {
    forall i :: 0 <= i < |s| ==> '0' <= s[i] <= '9'
  }

  lemma {:induction false} SkipsSpace(blanks: string, rest: string)
    requires AllSpace(blanks) && (rest == "" || !IsWhiteSpace(rest[0]))
    ensures SkipSpace(blanks + rest) == rest
  {
    if blanks == "" {
      assert blanks + rest == rest;
    } else {
      assert (blanks + rest)[1..] == blanks[1..] + rest;
      SkipsSpace(blanks[1..], rest);
    }
  }

  lemma {:induction false} TakesDigits(digits: string, rest: string)
    requires AllDigits(digits) && (rest == "" || !('0' <= rest[0] <= '9'))
    ensures DigitPrefix(digits + rest) == digits
  {
    if digits == "" {
      assert digits + rest == rest;
    } else {
      assert (digits + rest)[1..] == digits[1..] + rest;
      TakesDigits(digits[1..], rest);
      assert digits == [digits[0]] + digits[1..];
    }
  }

  /** A text is read as blanks, a sign, its longest run of digits and a rest that is ignored; without digits as none. */
  lemma ParseIntMeaning(blanks: string, sign: string, digits: string, rest: string)
    requires AllSpace(blanks) && sign in {"", "+", "-"} && AllDigits(digits)
    requires rest == "" || !('0' <= rest[0] <= '9')
    requires sign == "" && digits == "" && rest != "" ==> !IsWhiteSpace(rest[0]) && rest[0] != '+' && rest[0] != '-'
    ensures ParseInt(blanks + (sign + (digits + rest)))
         == if digits == "" then None
            else Some(if sign == "-" then -DecimalValue(digits) else DecimalValue(digits))
  {
    var body := digits + rest;
    var signed := sign + body;
    SignIsFound(sign, digits, rest);
    SkipsSpace(blanks, signed);
    TakesDigits(digits, rest);
  }

  lemma SignIsFound(sign: string, digits: string, rest: string)
    requires sign in {"", "+", "-"} && AllDigits(digits)
    requires sign == "" && digits == "" && rest != "" ==> !IsWhiteSpace(rest[0]) && rest[0] != '+' && rest[0] != '-'
    ensures var t := sign + (digits + rest);
      && (t == "" || !IsWhiteSpace(t[0]))
      && ((t != "" && (t[0] == '-' || t[0] == '+')) <==> sign != "")
      && (sign != "" ==> t[..1] == sign && t[1..] == digits + rest)
      && (sign == "" ==> t == digits + rest)
  {
    var body := digits + rest;
    if sign == "" {
      assert sign + body == body;
      if digits != "" {
        DigitsAreNotSpace(digits[0]);
        assert body[0] == digits[0];
      }
    } else {
      assert (sign + body)[0] == sign[0] && (sign + body)[1..] == body && (sign + body)[..1] == sign;
      assert !IsWhiteSpace('-') && !IsWhiteSpace('+');
    }
  }

  /** The value of a run of digits, by its last digit. */
  lemma DecimalValueMeaning(digits: string, last: char)
    ensures DecimalValue("") == 0
    ensures DecimalValue(digits + [last]) == 10 * DecimalValue(digits) + (last as int - 48)
  {
    assert (digits + [last])[..|digits|] == digits;
  }

  /** A printed number has no leading zero. */
  lemma {:induction false} NoLeadingZero(n: nat)
    requires n > 0
    ensures AllDigits(DecimalText(n)) && DecimalText(n)[0] != '0'
  {
    if n >= 10 {
      NoLeadingZero(n / 10);
    }
  }

  function ParseBoundedInteger(raw: Option<string>, fallback: int, low: int, high: int): int {
    if raw.None? || raw.value == "" then fallback else
      match ParseInt(raw.value)
      case None => fallback
      case Some(n) =>
        var raised := if n < low then low else n;
        if raised > high then high else raised
  }

  // ---- periods ----

  predicate IsDate(s: string) {
    && |s| == 10
    && s[4] == '-' && s[7] == '-'
    && IsDigit(s[0]) && IsDigit(s[1]) && IsDigit(s[2]) && IsDigit(s[3])
    && IsDigit(s[5]) && IsDigit(s[6]) && IsDigit(s[8]) && IsDigit(s[9])
  }

  predicate IsPresetName(s: string) {
    s in PRESETS || s in INHERITED_NAMES
  }

  predicate IsDateRange(s: string) {
    |s| == 21 && IsDate(s[..10]) && s[10] == '_' && IsDate(s[11..])
  }

  function ParsePeriod(raw: Option<string>): Period {
    if raw.None? || raw.value == "" || raw.value == "live" then Live
    else if IsPresetName(raw.value) then Preset(raw.value)
    else if IsDateRange(raw.value) then Custom(raw.value[..10], raw.value[11..])
    else Live
  }

  function SerializePeriod(period: Period): string {
    match period
    case Live => "live"
    case Preset(preset) => preset
    case Custom(fromDate, toDate) => fromDate + "_" + toDate
  }

  predicate CanonicalPeriod(period: Period) {
    match period
    case Live => true
    case Preset(preset) => IsPresetName(preset)
    case Custom(fromDate, toDate) => IsDate(fromDate) && IsDate(toDate)
  }

  lemma PresetNamesAreShort(s: string)
    requires IsPresetName(s)
    ensures 2 <= |s| <= 20 && s != "live"
  {
  }

  /** A period survives printing and parsing exactly when it is one the parser can produce. */
  lemma PeriodRoundTrip(period: Period)
    ensures ParsePeriod(Some(SerializePeriod(period))) == period <==> CanonicalPeriod(period)
  {
    match period
    case Live =>
    case Preset(preset) =>
      if IsPresetName(preset) {
        PresetNamesAreShort(preset);
      }
    case Custom(fromDate, toDate) =>
      var text := fromDate + "_" + toDate;
      if |fromDate| == 10 {
        assert text[..10] == fromDate && text[11..] == toDate && text[10] == '_';
      }
      if IsPresetName(text) {
        PresetNamesAreShort(text);
      }
  }

  /** Only an inherited name gives a preset that the page does not offer. */
  lemma UnlistedPresetIffInherited(raw: string)
    ensures ParsePeriod(Some(raw)).Preset? && raw !in PRESETS <==> raw in INHERITED_NAMES
  {
    if raw in INHERITED_NAMES {
      assert IsPresetName(raw);
      PresetNamesAreShort(raw);
      if |raw| <= 3 {
        InheritedNamesAreLong(raw);
      }
    }
  }

  lemma InheritedNamesAreLong(s: string)
    requires s in INHERITED_NAMES
    ensures |s| >= 7
  {
  }

  // ---- parsing ----

  function NonEmpty(values: seq<string>): seq<string> {
    if values == [] then [] else (if values[0] == "" then [] else [values[0]]) + NonEmpty(values[1..])
  }

  predicate AllNonEmpty(values: seq<string>) {
    forall i :: 0 <= i < |values| ==> values[i] != ""
  }

  lemma {:induction false} NonEmptyMeaning(values: seq<string>)
    ensures AllNonEmpty(NonEmpty(values))
    ensures NonEmpty(values) == values <==> AllNonEmpty(values)
  {
    if values != [] {
      NonEmptyMeaning(values[1..]);
      assert values == [values[0]] + values[1..];
      if AllNonEmpty(values[1..]) && values[0] != "" {
        assert forall i :: 0 < i < |values| ==> values[i] == values[1..][i - 1];
      }
    }
  }

  /** `parseFloat` gives the finite number a text starts with; None stands for NaN and the infinities. */
  function ParseMinDiff(raw: Option<string>, parseFloat: string -> Option<real>): Option<real> {
    if raw.None? then None else
      match parseFloat(raw.value)
      case None => None
      case Some(x) => if x >= 0.0 then Some(x) else None
  }

  function ParseFilters(params: Params, parseFloat: string -> Option<real>): Filters {
    var compareFor := Get(params, "compareFor");
    var normalize := Get(params, "normalize");
    Filters(
      NonEmpty(GetAll(params, "assets")),
      NonEmpty(GetAll(params, "sections")),
      NonEmpty(GetAll(params, "quotes")),
      if compareFor == Some("") then None else compareFor,
      ParsePeriod(Get(params, "period")),
      if normalize.Some? && normalize.value in NORMALIZATIONS then normalize.value else DEFAULT_NORMALIZE,
      ParseMinDiff(Get(params, "min_diff"), parseFloat),
      ParseBoundedInteger(Get(params, "offset"), 0, 0, MAX_SAFE_INTEGER),
      ParseBoundedInteger(Get(params, "limit"), DEFAULT_LIMIT, 1, MAX_LIMIT))
  }

  // ---- what the parser reads, parameter by parameter ----

  lemma {:induction false} GetAllMembers(params: Params, key: string, value: string)
    ensures value in GetAll(params, key) <==> Param(key, value) in params
  {
    if params != [] {
      GetAllMembers(params[1..], key, value);
      assert params == [params[0]] + params[1..];
    }
  }

  lemma {:induction false} NonEmptyMembers(values: seq<string>, value: string)
    ensures value in NonEmpty(values) <==> value in values && value != ""
  {
    if values != [] {
      NonEmptyMembers(values[1..], value);
      assert values == [values[0]] + values[1..];
    }
  }

  /** The lists hold exactly the non-empty values of their own parameters. */
  lemma ParsedLists(params: Params, parseFloat: string -> Option<real>, value: string)
    ensures var f := ParseFilters(params, parseFloat);
      && (value in f.assets <==> Param("assets", value) in params && value != "")
      && (value in f.sections <==> Param("sections", value) in params && value != "")
      && (value in f.quotes <==> Param("quotes", value) in params && value != "")
  {
    GetAllMembers(params, "assets", value);
    GetAllMembers(params, "sections", value);
    GetAllMembers(params, "quotes", value);
    NonEmptyMembers(GetAll(params, "assets"), value);
    NonEmptyMembers(GetAll(params, "sections"), value);
    NonEmptyMembers(GetAll(params, "quotes"), value);
  }

  lemma {:induction false} FirstValueCounts(params: Params, i: nat)
    requires i < |params| && forall j :: 0 <= j < i ==> params[j].key != params[i].key
    ensures Get(params, params[i].key) == Some(params[i].value)
  {
    if i > 0 {
      assert params[0].key != params[i].key;
      FirstValueCounts(params[1..], i - 1);
    }
  }

  lemma {:induction false} AbsentIsNone(params: Params, key: string)
    requires forall j :: 0 <= j < |params| ==> params[j].key != key
    ensures Get(params, key) == None
  {
    if params != [] {
      AbsentIsNone(params[1..], key);
    }
  }

  /** A single-valued parameter is read from its first occurrence: the texts. */
  lemma ParsedTexts(params: Params, i: nat, parseFloat: string -> Option<real>)
    requires i < |params| && forall j :: 0 <= j < i ==> params[j].key != params[i].key
    ensures var f, v := ParseFilters(params, parseFloat), params[i].value;
      && (params[i].key == "compareFor" ==> f.compareFor == if v == "" then None else Some(v))
      && (params[i].key == "normalize" ==>
          f.normalize == if v == "raw" || v == "1h" || v == "8h" || v == "1d" then v else "365d")
      && (params[i].key == "min_diff" ==>
          f.minDiff == if parseFloat(v).Some? && parseFloat(v).value >= 0.0 then parseFloat(v) else None)
  {
    FirstValueCounts(params, i);
  }

  /** Two dates, each four, two and two digits with hyphens between, and an underscore between the dates. */
  ghost predicate LooksLikeDates(s: string) {
    && |s| == 21
    && forall i :: 0 <= i < 21 ==>
         if i in {4, 7, 15, 18} then s[i] == '-' else if i == 10 then s[i] == '_' else '0' <= s[i] <= '9'
  }

  lemma DatesAreRead(s: string)
    requires |s| == 21
    ensures IsDateRange(s) <==> LooksLikeDates(s)
  {
    var a, b := s[..10], s[11..];
    forall i | 0 <= i < 10 ensures a[i] == s[i] && b[i] == s[11 + i] {
    }
  }

  lemma PresetsByName(v: string)
    ensures IsPresetName(v) <==>
            || v == "8h" || v == "1d" || v == "3d" || v == "7d" || v == "14d" || v == "30d" || v == "90d"
            || v in INHERITED_NAMES
  {
  }

  lemma PeriodByShape(v: string)
    ensures var period := ParsePeriod(Some(v));
      && (period.Preset? <==> IsPresetName(v)) && (period.Preset? ==> period.preset == v)
      && (period.Custom? <==> LooksLikeDates(v)) && (period.Custom? ==> period == Custom(v[..10], v[11..]))
  {
    if IsPresetName(v) {
      PresetNamesAreShort(v);
    }
    if |v| == 21 {
      DatesAreRead(v);
    }
  }

  /** The period is a listed preset or an inherited name, or two dates, or else live. */
  lemma ParsedPeriod(params: Params, i: nat, parseFloat: string -> Option<real>)
    requires i < |params| && params[i].key == "period" && forall j :: 0 <= j < i ==> params[j].key != "period"
    ensures var period, v := ParseFilters(params, parseFloat).period, params[i].value;
      && (period == Preset(v) <==>
          || v == "8h" || v == "1d" || v == "3d" || v == "7d" || v == "14d" || v == "30d" || v == "90d"
          || v in INHERITED_NAMES)
      && (period.Custom? <==> LooksLikeDates(v)) && (period.Custom? ==> period == Custom(v[..10], v[11..]))
      && (period.Preset? ==> period == Preset(v))
  {
    FirstValueCounts(params, i);
    PeriodByShape(params[i].value);
    PresetsByName(params[i].value);
  }

  /** The numbers: unreadable texts give the default, readable ones are moved into their bounds. */
  lemma ParsedNumbers(params: Params, i: nat, parseFloat: string -> Option<real>)
    requires i < |params| && forall j :: 0 <= j < i ==> params[j].key != params[i].key
    ensures var f, n := ParseFilters(params, parseFloat), ParseInt(params[i].value);
      && (params[i].key == "offset" ==>
          f.offset == if n.None? || n.value < 0 then 0
                      else if n.value <= 9_007_199_254_740_991 then n.value else 9_007_199_254_740_991)
      && (params[i].key == "limit" ==>
          f.limit == if n.None? then 20 else if n.value < 1 then 1 else if n.value <= 100 then n.value else 100)
  {
    FirstValueCounts(params, i);
  }

  /** An absent parameter leaves its default, whatever the others are. */
  lemma AbsentMeansDefault(params: Params, key: string, parseFloat: string -> Option<real>)
    requires forall j :: 0 <= j < |params| ==> params[j].key != key
    ensures var f := ParseFilters(params, parseFloat);
      && (key == "compareFor" ==> f.compareFor == None)
      && (key == "period" ==> f.period == Live)
      && (key == "normalize" ==> f.normalize == "365d")
      && (key == "min_diff" ==> f.minDiff == None)
      && (key == "offset" ==> f.offset == 0)
      && (key == "limit" ==> f.limit == 20)
  {
    AbsentIsNone(params, key);
  }

  // ---- printing ----

  /** All the parameters of one name. */
  datatype Entry = Entry(key: string, values: seq<string>)

  function Repeated(key: string, values: seq<string>): Params {
    seq(|values|, i requires 0 <= i < |values| => Param(key, values[i]))
  }

  function Flatten(entries: seq<Entry>): Params {
    if entries == [] then [] else
      var last := entries[|entries| - 1];
      Flatten(entries[..|entries| - 1]) + Repeated(last.key, last.values)
  }

  function Entries(f: Filters, show: real -> string): seq<Entry> {
    [ Entry("assets", f.assets),
      Entry("sections", f.sections),
      Entry("quotes", f.quotes),
      Entry("compareFor", if f.compareFor.None? || f.compareFor.value == "" then [] else [f.compareFor.value]),
      Entry("period", if SerializePeriod(f.period) == "live" then [] else [SerializePeriod(f.period)]),
      Entry("normalize", if f.normalize == DEFAULT_NORMALIZE then [] else [f.normalize]),
      Entry("min_diff", if f.minDiff.None? then [] else [show(f.minDiff.value)]),
      Entry("offset", if f.offset > 0 then [IntegerText(f.offset)] else []),
      Entry("limit", if f.limit == DEFAULT_LIMIT then [] else [IntegerText(f.limit)]) ]
  }

  /** The parameters of a filter, name by name. */
  function Serialized(f: Filters, show: real -> string): Params {
    Flatten(Entries(f, show))
  }

  ghost predicate DistinctKeys(entries: seq<Entry>) {
    forall i, j :: 0 <= i < j < |entries| ==> entries[i].key != entries[j].key
  }

  lemma NamesAreDistinct()
    ensures "assets" != "quotes" && "assets" != "period" && "assets" != "offset"
    ensures "quotes" != "period" && "quotes" != "offset" && "period" != "offset"
    ensures "sections" != "min_diff"
  {
    assert "assets"[0] != "quotes"[0] && "assets"[0] != "period"[0] && "assets"[0] != "offset"[0];
    assert "quotes"[0] != "period"[0] && "quotes"[0] != "offset"[0] && "period"[0] != "offset"[0];
    assert "sections"[0] != "min_diff"[0];
  }

  lemma EntriesAreDistinct(f: Filters, show: real -> string)
    ensures DistinctKeys(Entries(f, show))
  {
    NamesAreDistinct();
  }

  lemma {:induction false} GetAllOfRepeated(key: string, values: seq<string>, name: string)
    ensures GetAll(Repeated(key, values), name) == if name == key then values else []
  {
    if values != [] {
      GetAllOfRepeated(key, values[1..], name);
      assert Repeated(key, values)[1..] == Repeated(key, values[1..]);
      assert values == [values[0]] + values[1..];
    }
  }

  lemma GetAllOfLast(entries: seq<Entry>, name: string)
    requires entries != []
    ensures var n := |entries| - 1;
      GetAll(Flatten(entries), name)
      == GetAll(Flatten(entries[..n]), name) + if name == entries[n].key then entries[n].values else []
  {
    var n := |entries| - 1;
    GetAllOfRepeated(entries[n].key, entries[n].values, name);
    GetAllOfConcatenation(Flatten(entries[..n]), Repeated(entries[n].key, entries[n].values), name);
  }

  /** A name that no entry uses is not printed. */
  lemma {:induction false} GetAllOfOther(entries: seq<Entry>, name: string)
    requires forall i :: 0 <= i < |entries| ==> entries[i].key != name
    ensures GetAll(Flatten(entries), name) == []
  {
    if entries != [] {
      GetAllOfOther(entries[..|entries| - 1], name);
      GetAllOfLast(entries, name);
    }
  }

  /** Each entry is read back whole. */
  lemma {:induction false} GetAllOfEntry(entries: seq<Entry>, i: nat)
    requires DistinctKeys(entries) && i < |entries|
    ensures GetAll(Flatten(entries), entries[i].key) == entries[i].values
  {
    var n := |entries| - 1;
    var rest, name := entries[..n], entries[i].key;
    GetAllOfLast(entries, name);
    if i < n {
      assert rest[i] == entries[i];
      GetAllOfEntry(rest, i);
    } else {
      GetAllOfOther(rest, name);
    }
  }

  lemma FlattenOneMore(entries: seq<Entry>, k: nat)
    requires k < |entries|
    ensures Flatten(entries[..k + 1]) == Flatten(entries[..k]) + Repeated(entries[k].key, entries[k].values)
  {
    assert entries[..k + 1][..k] == entries[..k];
  }

  method AppendAll(params: Params, key: string, values: seq<string>) returns (extended: Params)
    ensures extended == params + Repeated(key, values)
  {
    extended := params;
    for i := 0 to |values|
      invariant extended == params + Repeated(key, values[..i])
    {
      assert values[..i + 1] == values[..i] + [values[i]];
      assert Repeated(key, values[..i + 1]) == Repeated(key, values[..i]) + [Param(key, values[i])];
      extended := extended + [Param(key, values[i])];
    }
    assert values[..|values|] == values;
  }

  /** One `params.set` under its guard: the printed prefix grows by one entry. */
  method SetIfAny(params: Params, ghost entries: seq<Entry>, ghost k: nat, key: string, value: Option<string>)
    returns (extended: Params)
    requires DistinctKeys(entries) && k < |entries| && params == Flatten(entries[..k])
    requires entries[k] == Entry(key, if value.None? then [] else [value.value])
    ensures extended == Flatten(entries[..k + 1])
  {
    GetAllOfOther(entries[..k], key);
    FlattenOneMore(entries, k);
    extended := params;
    if value.Some? {
      SetNewParamAppends(params, key, value.value);
      extended := SetParam(params, key, value.value);
    }
  }

  method AppendLists(f: Filters, show: real -> string) returns (params: Params)
    ensures params == Flatten(Entries(f, show)[..3])
  {
    ghost var entries := Entries(f, show);
    params := AppendAll([], "assets", f.assets);
    FlattenOneMore(entries, 0);
    params := AppendAll(params, "sections", f.sections);
    FlattenOneMore(entries, 1);
    params := AppendAll(params, "quotes", f.quotes);
    FlattenOneMore(entries, 2);
  }

  method SetChoices(f: Filters, show: real -> string, before: Params) returns (params: Params)
    requires before == Flatten(Entries(f, show)[..3])
    ensures params == Flatten(Entries(f, show)[..6])
  {
    ghost var entries := Entries(f, show);
    EntriesAreDistinct(f, show);
    params := SetIfAny(before, entries, 3, "compareFor", if f.compareFor == Some("") then None else f.compareFor);
    var period := SerializePeriod(f.period);
    params := SetIfAny(params, entries, 4, "period", if period == "live" then None else Some(period));
    var normalize := if f.normalize == DEFAULT_NORMALIZE then None else Some(f.normalize);
    params := SetIfAny(params, entries, 5, "normalize", normalize);
  }

  method SetNumbers(f: Filters, show: real -> string, before: Params) returns (params: Params)
    requires before == Flatten(Entries(f, show)[..6])
    ensures params == Serialized(f, show)
  {
    ghost var entries := Entries(f, show);
    EntriesAreDistinct(f, show);
    params := SetIfAny(before, entries, 6, "min_diff", if f.minDiff.None? then None else Some(show(f.minDiff.value)));
    params := SetIfAny(params, entries, 7, "offset", if f.offset > 0 then Some(IntegerText(f.offset)) else None);
    var limit := if f.limit == DEFAULT_LIMIT then None else Some(IntegerText(f.limit));
    params := SetIfAny(params, entries, 8, "limit", limit);
    assert entries[..9] == entries;
  }

  /** Builds the parameter list name by name, appending the lists and setting the rest under their guards. */
  method SerializeFilters(f: Filters, show: real -> string) returns (params: Params)
    ensures params == Serialized(f, show)
  {
    params := AppendLists(f, show);
    params := SetChoices(f, show, params);
    params := SetNumbers(f, show, params);
  }

  // ---- round trip ----

  ghost predicate ReadsBack(x: real, show: real -> string, parseFloat: string -> Option<real>) {
    parseFloat(show(x)) == Some(x)
  }

  /** The filters the page's own controls produce. */
  ghost predicate Canonical(f: Filters, show: real -> string, parseFloat: string -> Option<real>) {
    && AllNonEmpty(f.assets) && AllNonEmpty(f.sections) && AllNonEmpty(f.quotes)
    && f.compareFor != Some("")
    && CanonicalPeriod(f.period)
    && f.normalize in NORMALIZATIONS
    && (f.minDiff.Some? ==> f.minDiff.value >= 0.0 && ReadsBack(f.minDiff.value, show, parseFloat))
    && 0 <= f.offset <= MAX_SAFE_INTEGER
    && 1 <= f.limit <= MAX_LIMIT
  }

  /** What a reader finds under each name in the printed form of a filter. */
  ghost predicate Prints(params: Params, f: Filters, show: real -> string) {
    && GetAll(params, "assets") == f.assets
    && GetAll(params, "sections") == f.sections
    && GetAll(params, "quotes") == f.quotes
    && Get(params, "compareFor") == (if f.compareFor == Some("") then None else f.compareFor)
    && Get(params, "period") == (if SerializePeriod(f.period) == "live" then None else Some(SerializePeriod(f.period)))
    && Get(params, "normalize") == (if f.normalize == DEFAULT_NORMALIZE then None else Some(f.normalize))
    && Get(params, "min_diff") == (if f.minDiff.None? then None else Some(show(f.minDiff.value)))
    && Get(params, "offset") == (if f.offset > 0 then Some(IntegerText(f.offset)) else None)
    && Get(params, "limit") == (if f.limit == DEFAULT_LIMIT then None else Some(IntegerText(f.limit)))
  }

  lemma EntryIsPrinted(f: Filters, show: real -> string, i: nat, entry: Entry)
    requires i < 9 && Entries(f, show)[i] == entry
    ensures GetAll(Serialized(f, show), entry.key) == entry.values
  {
    EntriesAreDistinct(f, show);
    GetAllOfEntry(Entries(f, show), i);
  }

  /** A single-valued parameter that is printed at most once. */
  lemma ChoiceIsPrinted(f: Filters, show: real -> string, i: nat, key: string, value: Option<string>)
    requires i < 9 && Entries(f, show)[i] == Entry(key, if value.None? then [] else [value.value])
    ensures Get(Serialized(f, show), key) == value
  {
    EntryIsPrinted(f, show, i, Entry(key, if value.None? then [] else [value.value]));
  }

  lemma ListsArePrinted(f: Filters, show: real -> string)
    ensures GetAll(Serialized(f, show), "assets") == f.assets
    ensures GetAll(Serialized(f, show), "sections") == f.sections
    ensures GetAll(Serialized(f, show), "quotes") == f.quotes
  {
    EntryIsPrinted(f, show, 0, Entry("assets", f.assets));
    EntryIsPrinted(f, show, 1, Entry("sections", f.sections));
    EntryIsPrinted(f, show, 2, Entry("quotes", f.quotes));
  }

  lemma NumbersArePrinted(f: Filters, show: real -> string)
    ensures Get(Serialized(f, show), "min_diff") == if f.minDiff.None? then None else Some(show(f.minDiff.value))
    ensures Get(Serialized(f, show), "offset") == if f.offset > 0 then Some(IntegerText(f.offset)) else None
    ensures Get(Serialized(f, show), "limit") == if f.limit == DEFAULT_LIMIT then None else Some(IntegerText(f.limit))
  {
    ChoiceIsPrinted(f, show, 6, "min_diff", if f.minDiff.None? then None else Some(show(f.minDiff.value)));
    ChoiceIsPrinted(f, show, 7, "offset", if f.offset > 0 then Some(IntegerText(f.offset)) else None);
    ChoiceIsPrinted(f, show, 8, "limit", if f.limit == DEFAULT_LIMIT then None else Some(IntegerText(f.limit)));
  }

  lemma SerializedPrints(f: Filters, show: real -> string)
    ensures Prints(Serialized(f, show), f, show)
  {
    ListsArePrinted(f, show);
    ChoiceIsPrinted(f, show, 3, "compareFor", if f.compareFor == Some("") then None else f.compareFor);
    var period := SerializePeriod(f.period);
    ChoiceIsPrinted(f, show, 4, "period", if period == "live" then None else Some(period));
    ChoiceIsPrinted(f, show, 5, "normalize", if f.normalize == DEFAULT_NORMALIZE then None else Some(f.normalize));
    NumbersArePrinted(f, show);
  }

  lemma {:induction false} RepeatedMembers(key: string, values: seq<string>, p: Param)
    ensures p in Repeated(key, values) <==> p.key == key && p.value in values
  {
    if p.key == key && p.value in values {
      var i :| 0 <= i < |values| && values[i] == p.value;
      assert Repeated(key, values)[i] == p;
    }
  }

  lemma {:induction false} FlattenMembers(entries: seq<Entry>, p: Param)
    ensures p in Flatten(entries) <==>
            exists i :: 0 <= i < |entries| && entries[i].key == p.key && p.value in entries[i].values
  {
    if entries != [] {
      var n := |entries| - 1;
      FlattenMembers(entries[..n], p);
      RepeatedMembers(entries[n].key, entries[n].values, p);
      assert forall i :: 0 <= i < n ==> entries[..n][i] == entries[i];
    }
  }

  /** The printed parameters, one by one: nothing else is printed, and every default is left out. */
  lemma PrintedParameters(f: Filters, show: real -> string, key: string, value: string)
    ensures Param(key, value) in Serialized(f, show) <==>
            || (key == "assets" && value in f.assets)
            || (key == "sections" && value in f.sections)
            || (key == "quotes" && value in f.quotes)
            || (key == "compareFor" && f.compareFor == Some(value) && value != "")
            || (key == "period" && f.period.Preset? && value == f.period.preset && value != "live")
            || (key == "period" && f.period.Custom? && value == f.period.fromDate + "_" + f.period.toDate)
            || (key == "normalize" && value == f.normalize && value != "365d")
            || (key == "min_diff" && f.minDiff.Some? && value == show(f.minDiff.value))
            || (key == "offset" && f.offset > 0 && value == IntegerText(f.offset))
            || (key == "limit" && f.limit != 20 && value == IntegerText(f.limit))
  {
    var entries := Entries(f, show);
    FlattenMembers(entries, Param(key, value));
    if f.period.Custom? {
      UnderscoreIsNotLive(f.period.fromDate, f.period.toDate);
    }
    OneOfNine(entries, key, value);
  }

  lemma OneOfNine(e: seq<Entry>, key: string, value: string)
    requires |e| == 9
    ensures (exists i :: 0 <= i < |e| && e[i].key == key && value in e[i].values) <==>
            || (e[0].key == key && value in e[0].values) || (e[1].key == key && value in e[1].values)
            || (e[2].key == key && value in e[2].values) || (e[3].key == key && value in e[3].values)
            || (e[4].key == key && value in e[4].values) || (e[5].key == key && value in e[5].values)
            || (e[6].key == key && value in e[6].values) || (e[7].key == key && value in e[7].values)
            || (e[8].key == key && value in e[8].values)
  {
  }

  lemma UnderscoreIsNotLive(a: string, b: string)
    ensures a + "_" + b != "live"
  {
    assert (a + "_" + b)[|a|] == '_';
    assert '_' in a + "_" + b;
  }

  lemma ListsRoundTrip(params: Params, f: Filters, show: real -> string, parseFloat: string -> Option<real>)
    requires Prints(params, f, show)
    ensures var g := ParseFilters(params, parseFloat);
      && (g.assets == f.assets <==> AllNonEmpty(f.assets))
      && (g.sections == f.sections <==> AllNonEmpty(f.sections))
      && (g.quotes == f.quotes <==> AllNonEmpty(f.quotes))
      && (g.compareFor == f.compareFor <==> f.compareFor != Some(""))
  {
    NonEmptyMeaning(f.assets);
    NonEmptyMeaning(f.sections);
    NonEmptyMeaning(f.quotes);
  }

  lemma ChoicesRoundTrip(params: Params, f: Filters, show: real -> string, parseFloat: string -> Option<real>)
    requires Prints(params, f, show)
    ensures var g := ParseFilters(params, parseFloat);
      && (g.period == f.period <==> CanonicalPeriod(f.period))
      && (g.normalize == f.normalize <==> f.normalize in NORMALIZATIONS)
  {
    PeriodRoundTrip(f.period);
  }

  lemma NumbersRoundTrip(params: Params, f: Filters, show: real -> string, parseFloat: string -> Option<real>)
    requires Prints(params, f, show)
    ensures var g := ParseFilters(params, parseFloat);
      && (g.minDiff == f.minDiff <==>
          (f.minDiff.Some? ==> f.minDiff.value >= 0.0 && ReadsBack(f.minDiff.value, show, parseFloat)))
      && (g.offset == f.offset <==> 0 <= f.offset <= MAX_SAFE_INTEGER)
      && (g.limit == f.limit <==> 1 <= f.limit <= MAX_LIMIT)
  {
    ParseIntOfText(f.offset);
    ParseIntOfText(f.limit);
  }

  /** Printing and parsing gives a filter back exactly when it is canonical. */
  lemma RoundTripIffCanonical(f: Filters, show: real -> string, parseFloat: string -> Option<real>)
    ensures ParseFilters(Serialized(f, show), parseFloat) == f <==> Canonical(f, show, parseFloat)
  {
    SerializedPrints(f, show);
    ListsRoundTrip(Serialized(f, show), f, show, parseFloat);
    ChoicesRoundTrip(Serialized(f, show), f, show, parseFloat);
    NumbersRoundTrip(Serialized(f, show), f, show, parseFloat);
  }

  /** Every number the parser can deliver is printed so that it reads back. */
  ghost predicate TextRoundTrips(show: real -> string, parseFloat: string -> Option<real>) {
    forall s: string :: parseFloat(s).Some? ==> ReadsBack(parseFloat(s).value, show, parseFloat)
  }

  /** Whatever the query string, the parser delivers a canonical filter. */
  lemma ParsedIsCanonical(params: Params, show: real -> string, parseFloat: string -> Option<real>)
    requires TextRoundTrips(show, parseFloat)
    ensures Canonical(ParseFilters(params, parseFloat), show, parseFloat)
  {
    NonEmptyMeaning(GetAll(params, "assets"));
    NonEmptyMeaning(GetAll(params, "sections"));
    NonEmptyMeaning(GetAll(params, "quotes"));
  }

  /** Normalising a URL twice is normalising it once. */
  lemma NormalisationIsIdempotent(params: Params, show: real -> string, parseFloat: string -> Option<real>)
    requires TextRoundTrips(show, parseFloat)
    ensures var once := Serialized(ParseFilters(params, parseFloat), show);
      && ParseFilters(once, parseFloat) == ParseFilters(params, parseFloat)
      && Serialized(ParseFilters(once, parseFloat), show) == once
  {
    ParsedIsCanonical(params, show, parseFloat);
    RoundTripIffCanonical(ParseFilters(params, parseFloat), show, parseFloat);
  }

  /** A canonical filter prints to the bare URL exactly when it is the default one. */
  lemma BareUrlIffDefault(f: Filters, show: real -> string, parseFloat: string -> Option<real>)
    requires Canonical(f, show, parseFloat)
    ensures Serialized(f, show) == [] <==> f == DEFAULT_FILTERS
  {
    RoundTripIffCanonical(f, show, parseFloat);
    NoParametersMeanDefaults(parseFloat);
    DefaultsPrintNothing(show);
  }

  lemma NoParametersMeanDefaults(parseFloat: string -> Option<real>)
    ensures ParseFilters([], parseFloat) == DEFAULT_FILTERS
  {
  }

  lemma DefaultsPrintNothing(show: real -> string)
    ensures Serialized(DEFAULT_FILTERS, show) == []
  {
    FlattenNothing(Entries(DEFAULT_FILTERS, show));
  }

  lemma {:induction false} FlattenNothing(entries: seq<Entry>)
    requires forall i :: 0 <= i < |entries| ==> entries[i].values == []
    ensures Flatten(entries) == []
  {
    if entries != [] {
      FlattenNothing(entries[..|entries| - 1]);
    }
  }
}
