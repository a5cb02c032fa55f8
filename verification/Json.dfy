/** JSON values as Go's encoding/json writes them and reads them back into an `any`. Numbers are the
    integers that a float64 holds exactly; `Parse` covers the grammar that `Marshal` writes. */
module Json {
  import opened Options
  import opened GoText

  const MAX_SAFE: int := 0x20_0000_0000_0000   // 2^53

  type SafeInt = n: int | -MAX_SAFE < n < MAX_SAFE

  datatype Json =
    | Null
    | Bool(value: bool)
    | Num(n: SafeInt)
    | Str(s: string)
    | Arr(items: Items)
    | Obj(fields: Fields)

  datatype Items = NoItems | Item(head: Json, tail: Items)

  /** The members of an object, in the order written. */
  datatype Fields = NoFields | Field(key: string, value: Json, rest: Fields)

  // ---- Marshal ----

  function HexDigit(n: nat): (c: char)
    requires n < 16
  {
    if n < 10 then '0' + n as char else 'a' + (n - 10) as char
  }

  /** The digits are lower-case. */
  lemma HexDigitIs(n: nat)
    requires n < 16
    ensures HexDigit(n) == "0123456789abcdef"[n]
  {
  }

  function HexValue(c: char): Option<nat> {
    if '0' <= c <= '9' then Some(c as int - '0' as int)
    else if 'a' <= c <= 'f' then Some(c as int - 'a' as int + 10)
    else None
  }

  /** \uXXXX */
  function UnicodeEscape(code: nat): (s: string)
    requires code < 0x10000
    ensures |s| == 6
  {
    ['\\', 'u', HexDigit(code / 16 / 16 / 16), HexDigit(code / 16 / 16 % 16), HexDigit(code / 16 % 16), HexDigit(code % 16)]
  }

  /** One character inside a string literal, with HTML escaping on. */
  function EscapeChar(c: char): (s: string)
    ensures s != ""
  {
    if c == '"' then "\\\""
    else if c == '\\' then "\\\\"
    else if c == '\U{8}' then "\\b"
    else if c == '\U{C}' then "\\f"
    else if c == '\n' then "\\n"
    else if c == '\r' then "\\r"
    else if c == '\t' then "\\t"
    else if c < ' ' || c == '<' || c == '>' || c == '&' || c == '\U{2028}' || c == '\U{2029}' then UnicodeEscape(c as int)
    else [c]
  }

  function Escape(s: string): string {
    if s == "" then "" else EscapeChar(s[0]) + Escape(s[1..])
  }

  function Quote(s: string): string {
    "\"" + Escape(s) + "\""
  }

  function Marshal(v: Json): (text: string)
    ensures text != ""
    decreases v, 0
  {
    match v
    case Null => "null"
    case Bool(b) => if b then "true" else "false"
    case Num(n) => Decimal(n)
    case Str(s) => Quote(s)
    case Arr(items) => "[" + (if items.NoItems? then "]" else MarshalItems(items))
    case Obj(fields) => "{" + (if fields.NoFields? then "}" else MarshalFields(fields))
  }

  /** The elements with the closing bracket. */
  function MarshalItems(items: Items): (text: string)
    requires items.Item?
    ensures text != ""
    decreases items, 0
  {
    Marshal(items.head) + MarshalMoreItems(items.tail)
  }

  function MarshalMoreItems(items: Items): string
    decreases items, 1
  {
    if items.NoItems? then "]" else "," + MarshalItems(items)
  }

  /** The members with the closing brace. */
  function MarshalFields(fields: Fields): string
    requires fields.Field?
    decreases fields, 0
  {
    Quote(fields.key) + (":" + (Marshal(fields.value) + MarshalMoreFields(fields.rest)))
  }

  function MarshalMoreFields(fields: Fields): string
    decreases fields, 1
  {
    if fields.NoFields? then "}" else "," + MarshalFields(fields)
  }

  // ---- Unmarshal ----

  /** The characters that stay as they are. */
  lemma StaysExactly(c: char)
    ensures EscapeChar(c) == [c] <==>
      ' ' <= c && c != '"' && c != '\\' && c != '<' && c != '>' && c != '&' && c != '\U{2028}' && c != '\U{2029}'
  {
  }

  /** The others become a backslash and one character, or \\u and four digits. */
  lemma EscapeForm(c: char)
    requires EscapeChar(c) != [c]
    ensures if c == '"' || c == '\\' || c == '\n' || c == '\r' || c == '\t' || c == '\U{8}' || c == '\U{C}'
      then |EscapeChar(c)| == 2 && EscapeChar(c)[0] == '\\'
      else |EscapeChar(c)| == 6 && EscapeChar(c)[..2] == "\\u"
  {
  }

  datatype Parsed<+T> = Fail | Got(value: T, rest: string)

  function ParseEscape(s: string): (r: Parsed<char>)
    ensures r.Got? ==> |r.rest| < |s|
  {
    if s == "" then Fail
    else if s[0] == '"' || s[0] == '\\' || s[0] == '/' then Got(s[0], s[1..])
    else if s[0] == 'b' then Got('\U{8}', s[1..])
    else if s[0] == 'f' then Got('\U{C}', s[1..])
    else if s[0] == 'n' then Got('\n', s[1..])
    else if s[0] == 'r' then Got('\r', s[1..])
    else if s[0] == 't' then Got('\t', s[1..])
    else if s[0] == 'u' && |s| >= 5 then
      match (HexValue(s[1]), HexValue(s[2]), HexValue(s[3]), HexValue(s[4]))
      case (Some(a), Some(b), Some(c), Some(d)) =>
        var code := 16 * (16 * (16 * a + b) + c) + d;
        if code < 0xD800 then Got(code as char, s[5..]) else Fail
      case _ => Fail
    else Fail
  }

  /** The characters of a string literal up to the closing quote. */
  function ParseChars(s: string): (r: Parsed<string>)
    ensures r.Got? ==> |r.rest| < |s|
    decreases |s|
  {
    if s == "" || s[0] < ' ' then Fail
    else if s[0] == '"' then Got("", s[1..])
    else if s[0] == '\\' then
      match ParseEscape(s[1..])
      case Fail => Fail
      case Got(c, rest) =>
        (match ParseChars(rest)
         case Fail => Fail
         case Got(cs, rest') => Got([c] + cs, rest'))
    else
      match ParseChars(s[1..])
      case Fail => Fail
      case Got(cs, rest) => Got([s[0]] + cs, rest)
  }

  /** The longest prefix of digits, and what follows. */
  function SpanDigits(s: string): (r: (string, string))
    ensures AllDigits(r.0) && r.0 + r.1 == s
    ensures r.1 == "" || !IsDigit(r.1[0])
  {
    if s != "" && IsDigit(s[0]) then
      var (digits, rest) := SpanDigits(s[1..]);
      ([s[0]] + digits, rest)
    else ("", s)
  }

  function ParseNat(s: string): (r: Parsed<nat>)
    ensures r.Got? ==> |r.rest| < |s| && r.value < MAX_SAFE
  {
    var (digits, rest) := SpanDigits(s);
    if digits != "" && DecimalNat(Value(digits)) == digits && Value(digits) < MAX_SAFE then Got(Value(digits), rest) else Fail
  }

  predicate StartsWith(s: string, prefix: string) {
    prefix <= s
  }

  predicate Head(s: string, c: char) {
    s != "" && s[0] == c
  }

  function Parse(s: string): (r: Parsed<Json>)
    ensures r.Got? ==> |r.rest| < |s|
    decreases |s|, 0
  {
    if s == "" then Fail
    else if s[0] == 'n' then (if StartsWith(s, "null") then Got(Null, s[4..]) else Fail)
    else if s[0] == 't' then (if StartsWith(s, "true") then Got(Bool(true), s[4..]) else Fail)
    else if s[0] == 'f' then (if StartsWith(s, "false") then Got(Bool(false), s[5..]) else Fail)
    else if s[0] == '"' then
      match ParseChars(s[1..])
      case Fail => Fail
      case Got(cs, rest) => Got(Str(cs), rest)
    else if s[0] == '[' then
      if |s| > 1 && s[1] == ']' then Got(Arr(NoItems), s[2..])
      else
        match ParseItems(s[1..])
        case Fail => Fail
        case Got(items, rest) => Got(Arr(items), rest)
    else if s[0] == '{' then
      if |s| > 1 && s[1] == '}' then Got(Obj(NoFields), s[2..])
      else
        match ParseFields(s[1..])
        case Fail => Fail
        case Got(fields, rest) => Got(Obj(fields), rest)
    else if s[0] == '-' then
      match ParseNat(s[1..])
      case Fail => Fail
      case Got(n, rest) => var m: int := n; if n == 0 then Fail else Got(Num(-m), rest)
    else
      match ParseNat(s)
      case Fail => Fail
      case Got(n, rest) => Got(Num(n), rest)
  }

  function ParseItems(s: string): (r: Parsed<Items>)
    ensures r.Got? ==> |r.rest| < |s|
    decreases |s|, 1
  {
    match Parse(s)
    case Fail => Fail
    case Got(head, rest) =>
      if Head(rest, ']') then Got(Item(head, NoItems), rest[1..])
      else if Head(rest, ',') then
        match ParseItems(rest[1..])
        case Fail => Fail
        case Got(tail, rest') => Got(Item(head, tail), rest')
      else Fail
  }

  function ParseFields(s: string): (r: Parsed<Fields>)
    ensures r.Got? ==> |r.rest| < |s|
    decreases |s|, 1
  {
    if !Head(s, '"') then Fail
    else
      match ParseChars(s[1..])
      case Fail => Fail
      case Got(key, afterKey) =>
        if !Head(afterKey, ':') then Fail
        else
          match Parse(afterKey[1..])
          case Fail => Fail
          case Got(value, rest) =>
            if Head(rest, '}') then Got(Field(key, value, NoFields), rest[1..])
            else if Head(rest, ',') then
              match ParseFields(rest[1..])
              case Fail => Fail
              case Got(fields, rest') => Got(Field(key, value, fields), rest')
            else Fail
  }

  // ---- Texts that Marshal does not write ----

  lemma LeadingZeroSpan(s: string)
    requires |s| >= 2 && s[0] == '0' && IsDigit(s[1])
    ensures |SpanDigits(s).0| >= 2 && SpanDigits(s).0[0] == '0'
  {
    assert SpanDigits(s[1..]).0 != "";
  }

  lemma LeadingZeroNotDecimal(digits: string)
    requires AllDigits(digits) && |digits| >= 2 && digits[0] == '0'
    ensures DecimalNat(Value(digits)) != digits
  {
    DecimalForm(Value(digits));
  }

  /** A number does not start with a zero that another digit follows. */
  lemma LeadingZeroRefused(s: string)
    requires |s| >= 2 && s[0] == '0' && IsDigit(s[1])
    ensures ParseNat(s) == Fail
  {
    LeadingZeroSpan(s);
    LeadingZeroNotDecimal(SpanDigits(s).0);
  }

  /** A control character inside a string literal is refused. */
  lemma {:induction false} ControlRefused(s: string, i: nat)
    requires i < |s| && s[i] < ' ' && forall j :: 0 <= j < i ==> s[j] != '"' && s[j] != '\\'
    ensures ParseChars(s) == Fail
  {
    if i > 0 && s[0] >= ' ' {
      ControlRefused(s[1..], i - 1);
    }
  }

  /** An escaped slash is read as a slash, which Marshal writes as it is. */
  lemma SlashRead(rest: string)
    ensures ParseEscape("/" + rest) == Got('/', rest)
  {
    assert ("/" + rest)[1..] == rest;
  }

  // ---- Parsing undoes marshalling, whatever follows ----

  /** Nothing that a number could swallow. */
  predicate Delimited(rest: string) {
    rest == "" || !IsDigit(rest[0])
  }

  lemma HexRoundTrip(n: nat)
    requires n < 16
    ensures HexValue(HexDigit(n)) == Some(n)
  {
  }

  lemma ParseEscapeUnicode(code: nat, rest: string)
    requires code < 0xD800
    ensures ParseEscape(UnicodeEscape(code)[1..] + rest) == Got(code as char, rest)
  {
    var s := UnicodeEscape(code)[1..] + rest;
    assert s[0] == 'u' && s[5..] == rest;
    HexRoundTrip(code / 16 / 16 / 16);
    HexRoundTrip(code / 16 / 16 % 16);
    HexRoundTrip(code / 16 % 16);
    HexRoundTrip(code % 16);
    assert s[1] == HexDigit(code / 16 / 16 / 16) && s[2] == HexDigit(code / 16 / 16 % 16);
    assert s[3] == HexDigit(code / 16 % 16) && s[4] == HexDigit(code % 16);
    DigitsOfCode(code);
  }

  lemma DigitsOfCode(code: nat)
    requires code < 0x10000
    ensures 16 * (16 * (16 * (code / 16 / 16 / 16) + code / 16 / 16 % 16) + code / 16 % 16) + code % 16 == code
  {
  }

  /** After the backslash of an escaped character. */
  lemma ParseEscapeChar(c: char, rest: string)
    requires EscapeChar(c) != [c]
    ensures EscapeChar(c)[0] == '\\'
    ensures ParseEscape(EscapeChar(c)[1..] + rest) == Got(c, rest)
  {
    var e := EscapeChar(c);
    var s := e[1..] + rest;
    if |e| == 6 {
      ParseEscapeUnicode(c as int, rest);
    } else {
      assert s[1..] == rest;
    }
  }

  lemma ParseCharsEscape(c: char, rest: string)
    ensures ParseChars(EscapeChar(c) + rest) ==
      match ParseChars(rest)
      case Fail => Fail
      case Got(cs, rest') => Got([c] + cs, rest')
  {
    StaysExactly(c);
    hide EscapeChar, ParseEscape;
    var s := EscapeChar(c) + rest;
    if EscapeChar(c) == [c] {
      assert s[1..] == rest;
    } else {
      ParseEscapeChar(c, rest);
      assert s[1..] == EscapeChar(c)[1..] + rest;
    }
  }

  lemma {:induction false} ParseCharsQuoted(s: string, rest: string)
    ensures ParseChars(Escape(s) + "\"" + rest) == Got(s, rest)
  {
    hide EscapeChar, ParseEscape;
    if s == "" {
      assert Escape(s) + "\"" + rest == "\"" + rest;
    } else {
      ParseCharsQuoted(s[1..], rest);
      assert Escape(s) + "\"" + rest == EscapeChar(s[0]) + (Escape(s[1..]) + "\"" + rest);
      ParseCharsEscape(s[0], Escape(s[1..]) + "\"" + rest);
      assert [s[0]] + s[1..] == s;
    }
  }

  lemma {:induction false} SpanDigitsExact(digits: string, rest: string)
    requires AllDigits(digits) && Delimited(rest)
    ensures SpanDigits(digits + rest) == (digits, rest)
  {
    if digits == "" {
      assert digits + rest == rest;
    } else {
      SpanDigitsExact(digits[1..], rest);
      assert (digits + rest)[1..] == digits[1..] + rest;
      assert [digits[0]] + digits[1..] == digits;
    }
  }

  lemma ParseNatDecimal(n: nat, rest: string)
    requires n < MAX_SAFE && Delimited(rest)
    ensures ParseNat(DecimalNat(n) + rest) == Got(n, rest)
  {
    SpanDigitsExact(DecimalNat(n), rest);
    ValueOfDecimal(n);
  }

  lemma ParseNegative(n: nat, rest: string)
    requires 0 < n < MAX_SAFE && Delimited(rest)
    ensures var m: int := n; Parse("-" + DecimalNat(n) + rest) == Got(Num(-m), rest)
  {
    var s := "-" + DecimalNat(n) + rest;
    hide ParseNat, ParseChars, ParseItems, ParseFields, DecimalNat;
    assert s[0] == '-' && s[1..] == DecimalNat(n) + rest;
    ParseNatDecimal(n, rest);
  }

  lemma ParseNonNegative(n: nat, rest: string)
    requires n < MAX_SAFE && Delimited(rest)
    ensures Parse(DecimalNat(n) + rest) == Got(Num(n), rest)
  {
    hide ParseNat, ParseChars, ParseItems, ParseFields, DecimalNat;
    assert IsDigit((DecimalNat(n) + rest)[0]);
    ParseNatDecimal(n, rest);
  }

  lemma ParseNum(n: SafeInt, rest: string)
    requires Delimited(rest)
    ensures Parse(Decimal(n) + rest) == Got(Num(n), rest)
  {
    if n < 0 {
      ParseNegative(-n, rest);
    } else {
      ParseNonNegative(n, rest);
    }
  }

  lemma ParseStr(t: string, rest: string)
    ensures Parse(Quote(t) + rest) == Got(Str(t), rest)
  {
    ParseCharsQuoted(t, rest);
    var s := Quote(t) + rest;
    assert s[0] == '"' && s[1..] == Escape(t) + "\"" + rest;
  }

  lemma DropFirst(c: char, body: string, rest: string)
    ensures ([c] + body + rest)[1..] == body + rest
  {
  }

  lemma MarshalStart(v: Json)
    ensures Marshal(v) != "" && Marshal(v)[0] != ']' && Marshal(v)[0] != '}'
  {
  }

  lemma ParseWord(v: Json, rest: string)
    requires v.Null? || v.Bool?
    ensures Parse(Marshal(v) + rest) == Got(v, rest)
  {
  }

  /** What Parse does with a bracket, once the elements behind it are read. */
  lemma ParseArr(s: string, items: Items, rest: string)
    requires Head(s, '[') && ParseItems(s[1..]) == Got(items, rest) && |s| > 1 && s[1] != ']'
    ensures Parse(s) == Got(Arr(items), rest)
  {
  }

  lemma ParseObj(s: string, fields: Fields, rest: string)
    requires Head(s, '{') && ParseFields(s[1..]) == Got(fields, rest) && |s| > 1 && s[1] != '}'
    ensures Parse(s) == Got(Obj(fields), rest)
  {
  }

  lemma ParseEmpty(rest: string)
    ensures Parse("[]" + rest) == Got(Arr(NoItems), rest)
    ensures Parse("{}" + rest) == Got(Obj(NoFields), rest)
  {
  }

  lemma {:induction false} ParseMarshal(v: Json, rest: string)
    requires Delimited(rest)
    ensures Parse(Marshal(v) + rest) == Got(v, rest)
    decreases v, 0
  {
    hide Parse, ParseItems, ParseFields;
    match v
    case Null => ParseWord(v, rest);
    case Bool(_) => ParseWord(v, rest);
    case Num(n) => ParseNum(n, rest);
    case Str(t) => ParseStr(t, rest);
    case Arr(items) =>
      if items.Item? {
        ParseItemsMarshal(items, rest);
        MarshalStart(items.head);
        DropFirst('[', MarshalItems(items), rest);
        ParseArr(Marshal(v) + rest, items, rest);
      } else {
        assert Marshal(v) == "[]";
        ParseEmpty(rest);
      }
    case Obj(fields) =>
      if fields.Field? {
        ParseFieldsMarshal(fields, rest);
        DropFirst('{', MarshalFields(fields), rest);
        ParseObj(Marshal(v) + rest, fields, rest);
      } else {
        assert Marshal(v) == "{}";
        ParseEmpty(rest);
      }
  }

  /** What ParseItems does once the first element is read. */
  lemma ParseItemsStep(s: string, head: Json, after: string)
    requires Parse(s) == Got(head, after)
    ensures Head(after, ']') ==> ParseItems(s) == Got(Item(head, NoItems), after[1..])
    ensures Head(after, ',') && ParseItems(after[1..]).Got? ==>
      ParseItems(s) == Got(Item(head, ParseItems(after[1..]).value), ParseItems(after[1..]).rest)
  {
  }

  lemma {:induction false} ParseItemsMarshal(items: Items, rest: string)
    requires items.Item?
    ensures ParseItems(MarshalItems(items) + rest) == Got(items, rest)
    decreases items, 1
  {
    hide Parse, ParseItems, Marshal;
    var after := MarshalMoreItems(items.tail) + rest;
    assert MarshalItems(items) + rest == Marshal(items.head) + after;
    ParseMarshal(items.head, after);
    ParseItemsStep(MarshalItems(items) + rest, items.head, after);
    if items.tail.NoItems? {
      assert after[1..] == rest;
    } else {
      ParseItemsMarshal(items.tail, rest);
      DropFirst(',', MarshalItems(items.tail), rest);
    }
  }

  lemma QuoteSplit(key: string, tail: string)
    ensures var s := Quote(key) + tail; Head(s, '"') && ParseChars(s[1..]) == Got(key, tail)
  {
    hide Escape, ParseChars;
    var s := Quote(key) + tail;
    assert s[0] == '"' && s[1..] == Escape(key) + "\"" + tail;
    ParseCharsQuoted(key, tail);
  }

  /** What ParseFields does once the key and the value are read. */
  lemma ParseFieldsStep(s: string, key: string, afterKey: string, value: Json, after: string)
    requires Head(s, '"') && ParseChars(s[1..]) == Got(key, afterKey)
    requires Head(afterKey, ':') && Parse(afterKey[1..]) == Got(value, after)
    ensures Head(after, '}') ==> ParseFields(s) == Got(Field(key, value, NoFields), after[1..])
    ensures Head(after, ',') && ParseFields(after[1..]).Got? ==>
      ParseFields(s) == Got(Field(key, value, ParseFields(after[1..]).value), ParseFields(after[1..]).rest)
  {
  }

  lemma {:induction false} ParseFieldsMarshal(fields: Fields, rest: string)
    requires fields.Field?
    ensures ParseFields(MarshalFields(fields) + rest) == Got(fields, rest)
    decreases fields, 1
  {
    hide Parse, ParseFields, ParseChars, Marshal, Quote;
    var after := MarshalMoreFields(fields.rest) + rest;
    var member := Marshal(fields.value) + after;
    assert MarshalFields(fields) + rest == Quote(fields.key) + (":" + member);
    QuoteSplit(fields.key, ":" + member);
    assert (":" + member)[1..] == member;
    ParseMarshal(fields.value, after);
    ParseFieldsStep(MarshalFields(fields) + rest, fields.key, ":" + member, fields.value, after);
    if fields.rest.NoFields? {
      assert after[1..] == rest;
    } else {
      ParseFieldsMarshal(fields.rest, rest);
      DropFirst(',', MarshalFields(fields.rest), rest);
    }
  }

  /** JSON texts delimit themselves: two of them followed by something that is not a digit agree on
      where they end. */
  lemma MarshalSelfDelimiting(u: Json, v: Json, x: string, y: string)
    requires Delimited(x) && Delimited(y)
    requires Marshal(u) + x == Marshal(v) + y
    ensures u == v && x == y
  {
    ParseMarshal(u, x);
    ParseMarshal(v, y);
  }

  // ---- Marshal after Unmarshal ----

  function Unmarshal(text: string): Option<Json> {
    match Parse(text)
    case Fail => None
    case Got(v, rest) => if rest == "" then Some(v) else None
  }

  /** Assignment into a map that is kept sorted by key. */
  function Put(key: string, value: Json, fields: Fields): Fields {
    match fields
    case NoFields => Field(key, value, NoFields)
    case Field(k, v, rest) =>
      if key == k then Field(key, value, rest)
      else if Less(key, k) then Field(key, value, fields)
      else Field(k, v, Put(key, value, rest))
  }

  /** A value after it went through map[string]any: members sorted, the last of equal keys kept. */
  function Normalize(v: Json): Json {
    match v
    case Arr(items) => Arr(NormalizeItems(items))
    case Obj(fields) => Obj(NormalizeFields(fields, NoFields))
    case _ => v
  }

  function NormalizeItems(items: Items): Items {
    match items
    case NoItems => NoItems
    case Item(head, tail) => Item(Normalize(head), NormalizeItems(tail))
  }

  function NormalizeFields(fields: Fields, acc: Fields): Fields
    decreases fields
  {
    match fields
    case NoFields => acc
    case Field(key, value, rest) => NormalizeFields(rest, Put(key, Normalize(value), acc))
  }

  /** The text that marshalling again yields; a text that does not parse leaves the target nil. */
  function Remarshal(text: string): string {
    match Unmarshal(text)
    case None => "null"
    case Some(v) => Marshal(Normalize(v))
  }

  /** Every object, at every depth, has its members in strictly ascending order of their keys. */
  predicate MembersAscend(v: Json) {
    match v
    case Arr(items) => ItemsAscend(items)
    case Obj(fields) => FieldsAscend(fields)
    case _ => true
  }

  predicate ItemsAscend(items: Items) {
    match items
    case NoItems => true
    case Item(head, tail) => MembersAscend(head) && ItemsAscend(tail)
  }

  predicate FieldsAscend(fields: Fields) {
    match fields
    case NoFields => true
    case Field(key, value, rest) => MembersAscend(value) && (rest.Field? ==> Less(key, rest.key)) && FieldsAscend(rest)
  }

  function Append(a: Fields, b: Fields): Fields {
    match a
    case NoFields => b
    case Field(key, value, rest) => Field(key, value, Append(rest, b))
  }

  /** Every key of `a` is below `key`. */
  predicate Below(a: Fields, key: string) {
    a.Field? ==> Less(a.key, key) && Below(a.rest, key)
  }

  lemma {:induction false} BelowTransitive(a: Fields, key: string, next: string)
    requires Below(a, key) && Less(key, next)
    ensures Below(a, next)
  {
    if a.Field? {
      LessTransitive(a.key, key, next);
      BelowTransitive(a.rest, key, next);
    }
  }

  lemma {:induction false} PutLast(key: string, value: Json, acc: Fields)
    requires Below(acc, key)
    ensures Put(key, value, acc) == Append(acc, Field(key, value, NoFields))
  {
    if acc.Field? {
      LessTotal(acc.key, key);
      PutLast(key, value, acc.rest);
    }
  }

  lemma {:induction false} AppendAssoc(a: Fields, b: Fields, c: Fields)
    ensures Append(Append(a, b), c) == Append(a, Append(b, c))
  {
    if a.Field? {
      AppendAssoc(a.rest, b, c);
    }
  }

  lemma {:induction false} BelowSnoc(a: Fields, key: string, value: Json, next: string)
    requires Below(a, next) && Less(key, next)
    ensures Below(Append(a, Field(key, value, NoFields)), next)
  {
    if a.Field? {
      BelowSnoc(a.rest, key, value, next);
    }
  }

  lemma {:induction false} AscendingIsFixed(v: Json)
    requires MembersAscend(v)
    ensures Normalize(v) == v
    decreases v, 0
  {
    match v
    case Arr(items) => AscendingItemsFixed(items);
    case Obj(fields) => AscendingFieldsFixed(fields, NoFields);
    case _ =>
  }

  lemma {:induction false} AscendingItemsFixed(items: Items)
    requires ItemsAscend(items)
    ensures NormalizeItems(items) == items
    decreases items, 0
  {
    if items.Item? {
      AscendingIsFixed(items.head);
      AscendingItemsFixed(items.tail);
    }
  }

  lemma {:induction false} AscendingFieldsFixed(fields: Fields, acc: Fields)
    requires FieldsAscend(fields) && (fields.Field? ==> Below(acc, fields.key))
    ensures NormalizeFields(fields, acc) == Append(acc, fields)
    decreases fields, 0
  {
    match fields
    case NoFields => AppendNone(acc);
    case Field(key, value, rest) =>
      AscendingIsFixed(value);
      PutLast(key, value, acc);
      if rest.Field? {
        BelowTransitive(acc, key, rest.key);
        BelowSnoc(acc, key, value, rest.key);
      }
      AscendingFieldsFixed(rest, Append(acc, Field(key, value, NoFields)));
      AppendAssoc(acc, Field(key, value, NoFields), rest);
  }

  lemma {:induction false} AppendNone(a: Fields)
    ensures Append(a, NoFields) == a
  {
    if a.Field? {
      AppendNone(a.rest);
    }
  }

  lemma {:induction false} PutKeepsAscending(key: string, value: Json, fields: Fields)
    requires MembersAscend(value) && FieldsAscend(fields)
    ensures FieldsAscend(Put(key, value, fields))
    ensures Put(key, value, fields).Field?
    ensures Put(key, value, fields).key == key || (fields.Field? && Put(key, value, fields).key == fields.key)
  {
    if fields.Field? {
      LessTotal(key, fields.key);
      PutKeepsAscending(key, value, fields.rest);
    }
  }

  lemma {:induction false} NormalizeAscends(v: Json)
    ensures MembersAscend(Normalize(v))
    decreases v, 0
  {
    match v
    case Arr(items) => NormalizeItemsAscend(items);
    case Obj(fields) => NormalizeFieldsAscend(fields, NoFields);
    case _ =>
  }

  lemma {:induction false} NormalizeItemsAscend(items: Items)
    ensures ItemsAscend(NormalizeItems(items))
    decreases items, 0
  {
    if items.Item? {
      NormalizeAscends(items.head);
      NormalizeItemsAscend(items.tail);
    }
  }

  lemma {:induction false} NormalizeFieldsAscend(fields: Fields, acc: Fields)
    requires FieldsAscend(acc)
    ensures FieldsAscend(NormalizeFields(fields, acc))
    decreases fields, 0
  {
    if fields.Field? {
      NormalizeAscends(fields.value);
      PutKeepsAscending(fields.key, Normalize(fields.value), acc);
      NormalizeFieldsAscend(fields.rest, Put(fields.key, Normalize(fields.value), acc));
    }
  }

  // ---- What Unmarshal makes of an object: the last value of each key ----

  function LastOf(fields: Fields, key: string): Option<Json> {
    match fields
    case NoFields => None
    case Field(k, v, rest) =>
      var later := LastOf(rest, key);
      if later.Some? then later else if k == key then Some(v) else None
  }

  lemma {:induction false} LastOfBefore(fields: Fields, key: string)
    requires FieldsAscend(fields) && fields.Field? && Less(key, fields.key)
    ensures LastOf(fields, key) == None
    decreases fields
  {
    LessTotal(key, fields.key);
    if fields.rest.Field? {
      LessTransitive(key, fields.key, fields.rest.key);
      LastOfBefore(fields.rest, key);
    }
  }

  lemma {:induction false} PutSetsLast(key: string, value: Json, fields: Fields, k: string)
    requires FieldsAscend(fields)
    ensures LastOf(Put(key, value, fields), k) == if k == key then Some(value) else LastOf(fields, k)
    decreases fields
  {
    if fields.Field? {
      LessTotal(key, fields.key);
      if key == fields.key {
        if fields.rest.Field? {
          LastOfBefore(fields.rest, key);
        }
      } else if Less(key, fields.key) {
        LastOfBefore(fields, key);
      } else {
        PutSetsLast(key, value, fields.rest, k);
      }
    }
  }

  lemma {:induction false} NormalizeKeepsLast(fields: Fields, acc: Fields, key: string)
    requires FieldsAscend(acc)
    ensures LastOf(NormalizeFields(fields, acc), key) ==
      match LastOf(fields, key)
      case None => LastOf(acc, key)
      case Some(v) => Some(Normalize(v))
    decreases fields
  {
    if fields.Field? {
      var v := Normalize(fields.value);
      NormalizeAscends(fields.value);
      PutKeepsAscending(fields.key, v, acc);
      NormalizeKeepsLast(fields.rest, Put(fields.key, v, acc), key);
      PutSetsLast(fields.key, v, acc, key);
    }
  }

  function NormalizeFound(v: Option<Json>): Option<Json> {
    if v == None then None else Some(Normalize(v.value))
  }

  function Elements(items: Items): seq<Json> {
    if items.NoItems? then [] else [items.head] + Elements(items.tail)
  }

  lemma {:induction false} NormalizeEach(items: Items)
    ensures |Elements(NormalizeItems(items))| == |Elements(items)|
    ensures forall i :: 0 <= i < |Elements(items)| ==> Elements(NormalizeItems(items))[i] == Normalize(Elements(items)[i])
  {
    if items.Item? {
      NormalizeEach(items.tail);
    }
  }

  /** What Unmarshal into `any` does to a value: of each key of an object the last value stays, itself
      normalized, the members are sorted, and the elements of an array stay in place. */
  lemma NormalizeMeans(v: Json)
    ensures MembersAscend(Normalize(v))
    ensures !v.Obj? && !v.Arr? ==> Normalize(v) == v
    ensures v.Arr? ==> Normalize(v).Arr? && |Elements(Normalize(v).items)| == |Elements(v.items)|
    ensures v.Arr? ==> forall i :: 0 <= i < |Elements(v.items)| ==> Elements(Normalize(v).items)[i] == Normalize(Elements(v.items)[i])
    ensures v.Obj? ==> Normalize(v).Obj?
    ensures v.Obj? ==> forall key :: LastOf(Normalize(v).fields, key) == NormalizeFound(LastOf(v.fields, key))
  {
    NormalizeAscends(v);
    if v.Arr? {
      NormalizeEach(v.items);
    }
    if v.Obj? {
      forall key
        ensures LastOf(Normalize(v).fields, key) == NormalizeFound(LastOf(v.fields, key))
      {
        NormalizeKeepsLast(v.fields, NoFields, key);
      }
    }
  }

  /** Reading back what Marshal wrote gives the value. */
  lemma UnmarshalMarshal(v: Json)
    ensures Unmarshal(Marshal(v)) == Some(v)
  {
    ParseMarshal(v, "");
    assert Marshal(v) + "" == Marshal(v);
  }

  /** Anything after the value, that does not continue a number, is refused. */
  lemma TrailingRefused(v: Json, rest: string)
    requires rest != "" && Delimited(rest)
    ensures Unmarshal(Marshal(v) + rest) == None
  {
    ParseMarshal(v, rest);
  }

  /** A marshalled text survives Unmarshal and Marshal exactly when the members of its objects were
      in strictly ascending order, as they are for maps and need not be for structs. */
  lemma RemarshalStable(v: Json)
    ensures Remarshal(Marshal(v)) == Marshal(v) <==> MembersAscend(v)
  {
    UnmarshalMarshal(v);
    UnmarshalMarshal(Normalize(v));
    NormalizeAscends(v);
    if MembersAscend(v) {
      AscendingIsFixed(v);
    }
  }
}
