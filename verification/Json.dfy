/** Float-free JSON values, the compact printer, and a strict parser that undoes it. */
module Json {
  import opened Basics
  import opened Sorting

  /** A JSON value without floating-point numbers. An object keeps its members in
      insertion order, as a map backed by an index map would. */
  datatype Json =
    | Null
    | Bool(b: bool)
    | Num(n: int)
    | Str(s: Bytes)
    | Arr(items: seq<Json>)
    | Obj(members: seq<Entry<Json>>)

  type Members = seq<Entry<Json>>

  // ----- numbers -----------------------------------------------------------------------

  function Digit(n: int): (c: char)
    ensures IsDigit(c)
    ensures 0 <= n < 10 ==> DigitValue(c) == n && c == ('0' as int + n) as char
  {
    if 0 <= n < 10 then ('0' as int + n) as char else '0'
  }

  function DigitValue(c: char): int {
    c as int - '0' as int
  }

  function Decimal(n: nat): (s: Bytes)
    ensures s != ""
  {
    if n < 10 then [Digit(n)] else Decimal(n / 10) + [Digit(n % 10)]
  }

  function DecimalValue(s: Bytes): int {
    if s == "" then 0 else 10 * DecimalValue(s[..|s| - 1]) + DigitValue(s[|s| - 1])
  }

  lemma {:induction false} DecimalRoundTrip(n: nat)
    ensures DecimalValue(Decimal(n)) == n
    ensures AllDigits(Decimal(n))
    ensures Decimal(n)[0] == '0' ==> n == 0 && |Decimal(n)| == 1
  {
    if n < 10 {
      assert Decimal(n)[..0] == "";
    } else {
      DecimalRoundTrip(n / 10);
      var s := Decimal(n);
      assert s[..|s| - 1] == Decimal(n / 10);
    }
  }

  function PrintInt(n: int): Bytes {
    if n < 0 then "-" + Decimal(-n) else Decimal(n)
  }

  /** Length of the longest run of digits at the start of `s`. */
  function DigitRun(s: Bytes): (k: nat)
    ensures k <= |s|
  {
    if s == "" || !IsDigit(s[0]) then 0 else 1 + DigitRun(s[1..])
  }

  lemma {:induction false} DigitRunStops(d: Bytes, rest: Bytes)
    requires AllDigits(d)
    requires rest != "" ==> !IsDigit(rest[0])
    ensures DigitRun(d + rest) == |d|
  {
    if d == "" {
      assert d + rest == rest;
    } else {
      assert (d + rest)[1..] == d[1..] + rest;
      DigitRunStops(d[1..], rest);
    }
  }

  // ----- strings -----------------------------------------------------------------------

  const BACKSPACE: char := 8 as char
  const TAB: char := 9 as char
  const LINE_FEED: char := 10 as char
  const FORM_FEED: char := 12 as char
  const CARRIAGE_RETURN: char := 13 as char

  function EscapeChar(c: char): (s: Bytes)
    ensures |s| > 0
  {
    if c == '"' then "\\\""
    else if c == '\\' then "\\\\"
    else if c == BACKSPACE then "\\b"
    else if c == TAB then "\\t"
    else if c == LINE_FEED then "\\n"
    else if c == FORM_FEED then "\\f"
    else if c == CARRIAGE_RETURN then "\\r"
    else if c as int < 0x20 then
      "\\u00" + [HexDigit(c as int / 16), HexDigit(c as int % 16)]
    else [c]
  }

  /** Each character has its shortest form: itself where that is allowed, two characters for
      the seven that have such a form, and lower-case hexadecimal for the other controls. */
  lemma EscapeIsShortest(c: char)
    ensures EscapeChar(c) == [c] <==> c as int >= 0x20 && c != '"' && c != '\\'
    ensures |EscapeChar(c)| == 2 <==> c as int in {8, 9, 10, 12, 13, 34, 92}
    ensures |EscapeChar(c)| > 2 ==> EscapeChar(c) == "\\u" + HexEncode([0 as char, c])
  {
    assert HexEncode([0 as char, c]) == "00" + HexEncode([c]);
    assert [c][1..] == "";
  }

  function Escape(s: Bytes): Bytes {
    if s == "" then "" else EscapeChar(s[0]) + Escape(s[1..])
  }

  function Quote(s: Bytes): Bytes {
    "\"" + Escape(s) + "\""
  }

  // ----- printer -----------------------------------------------------------------------

  function Print(v: Json): (s: Bytes)
    ensures s != ""
    decreases v, 0
  {
    match v
    case Null => "null"
    case Bool(b) => if b then "true" else "false"
    case Num(n) => PrintInt(n)
    case Str(s) => Quote(s)
    case Arr(items) =>
      if items == [] then "[]"
      else "[" + Print(items[0]) + PrintItems(items[1..]) + "]"
    case Obj(members) =>
      if members == [] then "{}"
      else "{" + PrintMember(members[0]) + PrintMembers(members[1..]) + "}"
  }

  function PrintItems(items: seq<Json>): Bytes
    decreases items, 0
  {
    if items == [] then "" else "," + Print(items[0]) + PrintItems(items[1..])
  }

  function PrintMember(m: Entry<Json>): Bytes
    decreases m, 0
  {
    Quote(m.key) + ":" + Print(m.value)
  }

  function PrintMembers(members: Members): Bytes
    decreases members, 0
  {
    if members == [] then "" else "," + PrintMember(members[0]) + PrintMembers(members[1..])
  }

  // ----- parser ------------------------------------------------------------------------

  predicate IsSpace(c: char) {
    c == ' ' || c == TAB || c == LINE_FEED || c == CARRIAGE_RETURN
  }

  function SkipSpace(s: Bytes): (r: Bytes)
    ensures |r| <= |s|
    ensures s != "" && !IsSpace(s[0]) ==> r == s
  {
    if s != "" && IsSpace(s[0]) then SkipSpace(s[1..]) else s
  }

  function ParseNumber(s: Bytes): (r: Option<(Json, Bytes)>)
    ensures r.Some? ==> |r.value.1| < |s|
  {
    var negative := s != "" && s[0] == '-';
    var t := if negative then s[1..] else s;
    var k := DigitRun(t);
    var rest := t[k..];
    if k == 0 || (k > 1 && t[0] == '0') then None
    else if rest != "" && (rest[0] == '.' || rest[0] == 'e' || rest[0] == 'E') then None
    else
      var n := DecimalValue(t[..k]);
      if negative && n == 0 then None
      else Some((Num(if negative then -n else n), rest))
  }

  function Hex4(s: Bytes): (r: Option<int>)
    ensures r.Some? ==> |s| >= 4 && 0 <= r.value < 0x10000
  {
    if |s| >= 4 && IsHexDigit(s[0]) && IsHexDigit(s[1]) && IsHexDigit(s[2]) && IsHexDigit(s[3])
    then Some(HexValue(s[0]) * 4096 + HexValue(s[1]) * 256 + HexValue(s[2]) * 16 + HexValue(s[3]))
    else None
  }

  function Utf8(code: int): Bytes
    requires 0 <= code < 0x110000
  {
    if code < 0x80 then [code as char]
    else if code < 0x800 then [(0xC0 + code / 64) as char, (0x80 + code % 64) as char]
    else if code < 0x10000 then
      [(0xE0 + code / 4096) as char, (0x80 + code / 64 % 64) as char, (0x80 + code % 64) as char]
    else
      [(0xF0 + code / 262144) as char, (0x80 + code / 4096 % 64) as char,
       (0x80 + code / 64 % 64) as char, (0x80 + code % 64) as char]
  }

  /** The part of an escape that follows `\u`; surrogates must come in pairs. */
  function ParseUnicode(s: Bytes): (r: Option<(Bytes, Bytes)>)
    ensures r.Some? ==> |r.value.1| < |s|
  {
    match Hex4(s)
    case None => None
    case Some(high) =>
      if 0xD800 <= high < 0xDC00 then
        if |s| < 6 || s[4] != '\\' || s[5] != 'u' then None
        else
          match Hex4(s[6..])
          case None => None
          case Some(low) =>
            if 0xDC00 <= low < 0xE000
            then Some((Utf8(0x10000 + (high - 0xD800) * 1024 + (low - 0xDC00)), s[10..]))
            else None
      else if 0xDC00 <= high < 0xE000 then None
      else Some((Utf8(high), s[4..]))
  }

  /** One character of a string literal, as the octets it stands for. */
  function ParseChar(s: Bytes): (r: Option<(Bytes, Bytes)>)
    requires s != ""
    ensures r.Some? ==> |r.value.1| < |s|
  {
    if s[0] as int < 0x20 then None
    else if s[0] != '\\' then Some(([s[0]], s[1..]))
    else if |s| < 2 then None
    else if s[1] == 'u' then ParseUnicode(s[2..])
    else if s[1] == '"' || s[1] == '\\' || s[1] == '/' then Some(([s[1]], s[2..]))
    else if s[1] == 'b' then Some(([BACKSPACE], s[2..]))
    else if s[1] == 't' then Some(([TAB], s[2..]))
    else if s[1] == 'n' then Some(([LINE_FEED], s[2..]))
    else if s[1] == 'f' then Some(([FORM_FEED], s[2..]))
    else if s[1] == 'r' then Some(([CARRIAGE_RETURN], s[2..]))
    else None
  }

  /** The characters of a string literal up to and including the closing quote. */
  function ParseChars(s: Bytes): (r: Option<(Bytes, Bytes)>)
    ensures r.Some? ==> |r.value.1| < |s|
    decreases |s|
  {
    if s == "" then None
    else if s[0] == '"' then Some(("", s[1..]))
    else
      match ParseChar(s)
      case None => None
      case Some((c, t)) =>
        match ParseChars(t)
        case None => None
        case Some((rest, u)) => Some((c + rest, u))
  }

  function ParseValue(s: Bytes): (r: Option<(Json, Bytes)>)
    ensures r.Some? ==> |r.value.1| < |s|
    decreases |s|, 0
  {
    if s == "" then None
    else if IsSpace(s[0]) then ParseValue(s[1..])
    else if s[0] == 'n' then
      if "null" <= s then Some((Null, s[4..])) else None
    else if s[0] == 't' then
      if "true" <= s then Some((Bool(true), s[4..])) else None
    else if s[0] == 'f' then
      if "false" <= s then Some((Bool(false), s[5..])) else None
    else if s[0] == '"' then
      match ParseChars(s[1..])
      case None => None
      case Some((text, rest)) => Some((Str(text), rest))
    else if s[0] == '[' then
      var t := SkipSpace(s[1..]);
      if t != "" && t[0] == ']' then Some((Arr([]), t[1..]))
      else
        match ParseValue(t)
        case None => None
        case Some((v, u)) =>
          match ParseItems(u)
          case None => None
          case Some((vs, w)) => Some((Arr([v] + vs), w))
    else if s[0] == '{' then
      var t := SkipSpace(s[1..]);
      if t != "" && t[0] == '}' then Some((Obj([]), t[1..]))
      else
        match ParseMember(t)
        case None => None
        case Some((m, u)) =>
          match ParseMembers(u)
          case None => None
          case Some((ms, w)) => Some((Obj([m] + ms), w))
    else ParseNumber(s)
  }

  /** The remaining items of an array, each preceded by a comma, and the bracket. */
  function ParseItems(s: Bytes): (r: Option<(seq<Json>, Bytes)>)
    ensures r.Some? ==> |r.value.1| < |s|
    decreases |s|, 0
  {
    var t := SkipSpace(s);
    if t == "" then None
    else if t[0] == ']' then Some(([], t[1..]))
    else if t[0] != ',' then None
    else
      match ParseValue(t[1..])
      case None => None
      case Some((v, u)) =>
        match ParseItems(u)
        case None => None
        case Some((vs, w)) => Some(([v] + vs, w))
  }

  function ParseMember(s: Bytes): (r: Option<(Entry<Json>, Bytes)>)
    ensures r.Some? ==> |r.value.1| < |s|
    decreases |s|, 1
  {
    var t := SkipSpace(s);
    if t == "" || t[0] != '"' then None
    else
      match ParseChars(t[1..])
      case None => None
      case Some((key, u)) =>
        var w := SkipSpace(u);
        if w == "" || w[0] != ':' then None
        else
          match ParseValue(w[1..])
          case None => None
          case Some((v, x)) => Some((Entry(key, v), x))
  }

  /** The remaining members of an object, each preceded by a comma, and the brace. */
  function ParseMembers(s: Bytes): (r: Option<(Members, Bytes)>)
    ensures r.Some? ==> |r.value.1| < |s|
    decreases |s|, 0
  {
    var t := SkipSpace(s);
    if t == "" then None
    else if t[0] == '}' then Some(([], t[1..]))
    else if t[0] != ',' then None
    else
      match ParseMember(t[1..])
      case None => None
      case Some((m, u)) =>
        match ParseMembers(u)
        case None => None
        case Some((ms, w)) => Some(([m] + ms, w))
  }

  /** A whole document: one value, then nothing but white space. */
  function Parse(s: Bytes): Option<Json> {
    match ParseValue(s)
    case None => None
    case Some((v, rest)) => if SkipSpace(rest) == "" then Some(v) else None
  }

  // ----- the parser undoes the printer --------------------------------------------------

  /** Text that may follow a value without being read as part of it. */
  predicate Delimited(rest: Bytes) {
    rest == "" || rest[0] == ',' || rest[0] == ']' || rest[0] == '}'
  }

  lemma ParseEscapedChar(c: char, rest: Bytes)
    ensures (EscapeChar(c) + rest)[0] != '"'
    ensures ParseChar(EscapeChar(c) + rest) == Some(([c], rest))
  {
    var e := EscapeChar(c);
    var s := e + rest;
    assert s[|e|..] == rest;
    if c as int < 0x20 && |e| == 6 {
      var n := c as int;
      var t := s[2..];
      assert t[0] == '0' && t[1] == '0' && t[2] == HexDigit(n / 16) && t[3] == HexDigit(n % 16);
      assert Hex4(t) == Some(n);
      assert t[4..] == rest;
    }
  }

  lemma {:induction false} ParseEscaped(text: Bytes, rest: Bytes)
    ensures ParseChars(Escape(text) + "\"" + rest) == Some((text, rest))
  {
    var s := Escape(text) + "\"" + rest;
    if text == "" {
      assert s == "\"" + rest;
      assert s[1..] == rest;
    } else {
      var tail := Escape(text[1..]) + "\"" + rest;
      assert s == EscapeChar(text[0]) + tail;
      ParseEscapedChar(text[0], tail);
      ParseEscaped(text[1..], rest);
      assert [text[0]] + text[1..] == text;
    }
  }

  lemma ParseQuoted(text: Bytes, rest: Bytes)
    ensures (Quote(text) + rest)[0] == '"'
    ensures ParseChars((Quote(text) + rest)[1..]) == Some((text, rest))
  {
    assert (Quote(text) + rest)[1..] == Escape(text) + "\"" + rest;
    ParseEscaped(text, rest);
  }

  lemma ParseValueNumber(s: Bytes)
    requires s != "" && (s[0] == '-' || IsDigit(s[0]))
    ensures ParseValue(s) == ParseNumber(s)
  {
  }

  lemma ParseNatural(n: nat, rest: Bytes)
    requires Delimited(rest)
    ensures ParseNumber(Decimal(n) + rest) == Some((Num(n), rest))
    ensures n > 0 ==> ParseNumber("-" + Decimal(n) + rest) == Some((Num(-(n as int)), rest))
    ensures IsDigit(Decimal(n)[0])
  {
    var digits := Decimal(n);
    DecimalRoundTrip(n);
    DigitRunStops(digits, rest);
    var t := digits + rest;
    assert t[..|digits|] == digits && t[|digits|..] == rest;
    assert IsDigit(digits[0]);
    assert ("-" + digits + rest)[1..] == t;
  }

  lemma ParsePrintedInt(n: int, rest: Bytes)
    requires Delimited(rest)
    ensures ParseValue(PrintInt(n) + rest) == Some((Num(n), rest))
  {
    ParseNatural(if n < 0 then -n else n, rest);
    ParseValueNumber(PrintInt(n) + rest);
  }

  lemma ParsePrintedAtom(v: Json, rest: Bytes)
    requires v.Null? || v.Bool? || v.Num? || v.Str?
    requires Delimited(rest)
    ensures ParseValue(Print(v) + rest) == Some((v, rest))
  {
    if v.Num? {
      ParsePrintedInt(v.n, rest);
    } else if v.Str? {
      ParseQuoted(v.s, rest);
    } else {
      assert (Print(v) + rest)[|Print(v)|..] == rest;
    }
  }

  lemma NumberStart(n: int)
    ensures PrintInt(n) != "" && (PrintInt(n)[0] == '-' || IsDigit(PrintInt(n)[0]))
  {
    DecimalRoundTrip(if n < 0 then -n else n);
    assert IsDigit(Decimal(if n < 0 then -n else n)[0]);
  }

  lemma BracketStart(v: Json)
    requires v.Arr? || v.Obj? || v.Str?
    ensures Print(v) != "" && (Print(v)[0] == '[' || Print(v)[0] == '{' || Print(v)[0] == '"')
  {
  }

  /** No printed value starts with white space or a closing bracket. */
  lemma PrintStart(v: Json)
    ensures !IsSpace(Print(v)[0]) && Print(v)[0] != ']' && Print(v)[0] != '}'
  {
    match v
    case Num(n) => NumberStart(n);
    case Null =>
    case Bool(_) =>
    case _ => BracketStart(v);
  }

  lemma ParseArrayStep(t: Bytes, v: Json, u: Bytes, vs: seq<Json>, w: Bytes)
    requires t != "" && !IsSpace(t[0]) && t[0] != ']'
    requires ParseValue(t) == Some((v, u)) && ParseItems(u) == Some((vs, w))
    ensures ParseValue("[" + t) == Some((Arr([v] + vs), w))
  {
  }

  lemma ParseObjectStep(t: Bytes, m: Entry<Json>, u: Bytes, ms: Members, w: Bytes)
    requires t != "" && t[0] == '"'
    requires ParseMember(t) == Some((m, u)) && ParseMembers(u) == Some((ms, w))
    ensures ParseValue("{" + t) == Some((Obj([m] + ms), w))
  {
  }

  /** A member from its parts: a key that parses, a colon, a value that parses. */
  lemma ParseMemberParts(s: Bytes, key: Bytes, rest: Bytes, v: Json, w: Bytes)
    requires s != "" && s[0] == '"' && ParseChars(s[1..]) == Some((key, rest))
    requires rest != "" && rest[0] == ':' && ParseValue(rest[1..]) == Some((v, w))
    ensures ParseMember(s) == Some((Entry(key, v), w))
  {
    assert SkipSpace(s) == s && SkipSpace(rest) == rest;
  }

  lemma ParseMemberStep(key: Bytes, u: Bytes, v: Json, w: Bytes)
    requires ParseValue(u) == Some((v, w))
    ensures ParseMember(Quote(key) + ":" + u) == Some((Entry(key, v), w))
  {
    var rest := ":" + u;
    ParseQuoted(key, rest);
    assert rest[1..] == u;
    ParseMemberParts(Quote(key) + rest, key, rest, v, w);
    assert Quote(key) + rest == Quote(key) + ":" + u;
  }

  lemma ParseEmpty(rest: Bytes)
    ensures ParseValue("[]" + rest) == Some((Arr([]), rest))
    ensures ParseValue("{}" + rest) == Some((Obj([]), rest))
  {
  }

  lemma PrintShape(v: Json, rest: Bytes)
    ensures v.Arr? && v.items != [] ==>
      Print(v) + rest == "[" + (Print(v.items[0]) + (PrintItems(v.items[1..]) + "]" + rest))
    ensures v.Obj? && v.members != [] ==>
      Print(v) + rest == "{" + (PrintMember(v.members[0]) + (PrintMembers(v.members[1..]) + "}" + rest))
  {
  }

  /** Printing and then parsing gives the value back and leaves what follows it. */
  lemma {:induction false} ParsePrint(v: Json, rest: Bytes)
    requires Delimited(rest)
    ensures ParseValue(Print(v) + rest) == Some((v, rest))
    decreases v, 1
  {
    if v.Arr? {
      ParsePrintArray(v, rest);
    } else if v.Obj? {
      ParsePrintObject(v, rest);
    } else {
      ParsePrintedAtom(v, rest);
    }
  }

  lemma {:induction false} ParsePrintArray(v: Json, rest: Bytes)
    requires v.Arr? && Delimited(rest)
    ensures ParseValue(Print(v) + rest) == Some((v, rest))
    decreases v, 0
  {
    var items := v.items;
    if items == [] {
      ParseEmpty(rest);
    } else {
      var u := PrintItems(items[1..]) + "]" + rest;
      var t := Print(items[0]) + u;
      PrintStart(items[0]);
      ParsePrint(items[0], u);
      ParsePrintItems(items[1..], rest);
      ParseArrayStep(t, items[0], u, items[1..], rest);
      assert [items[0]] + items[1..] == items;
      PrintShape(v, rest);
    }
  }

  lemma {:induction false} ParsePrintObject(v: Json, rest: Bytes)
    requires v.Obj? && Delimited(rest)
    ensures ParseValue(Print(v) + rest) == Some((v, rest))
    decreases v, 0
  {
    var members := v.members;
    if members == [] {
      ParseEmpty(rest);
    } else {
      var u := PrintMembers(members[1..]) + "}" + rest;
      var t := PrintMember(members[0]) + u;
      ParsePrintMember(members[0], u);
      ParsePrintMembers(members[1..], rest);
      ParseObjectStep(t, members[0], u, members[1..], rest);
      assert [members[0]] + members[1..] == members;
      PrintShape(v, rest);
    }
  }

  lemma ParseItemsStep(t: Bytes, v: Json, u: Bytes, vs: seq<Json>, w: Bytes)
    requires ParseValue(t) == Some((v, u)) && ParseItems(u) == Some((vs, w))
    ensures ParseItems("," + t) == Some(([v] + vs, w))
  {
  }

  lemma ParseMembersStep(t: Bytes, m: Entry<Json>, u: Bytes, ms: Members, w: Bytes)
    requires ParseMember(t) == Some((m, u)) && ParseMembers(u) == Some((ms, w))
    ensures ParseMembers("," + t) == Some(([m] + ms, w))
  {
  }

  lemma {:induction false} ParsePrintItems(items: seq<Json>, rest: Bytes)
    ensures ParseItems(PrintItems(items) + "]" + rest) == Some((items, rest))
    decreases items, 1
  {
    var s := PrintItems(items) + "]" + rest;
    if items == [] {
      assert s == "]" + rest;
      assert s[1..] == rest;
    } else {
      var u := PrintItems(items[1..]) + "]" + rest;
      assert s == "," + (Print(items[0]) + u);
      ParsePrint(items[0], u);
      ParsePrintItems(items[1..], rest);
      ParseItemsStep(Print(items[0]) + u, items[0], u, items[1..], rest);
      assert [items[0]] + items[1..] == items;
    }
  }

  lemma {:induction false} ParsePrintMember(m: Entry<Json>, rest: Bytes)
    requires Delimited(rest)
    ensures ParseMember(PrintMember(m) + rest) == Some((m, rest))
    decreases m, 1
  {
    var u := Print(m.value) + rest;
    assert PrintMember(m) + rest == Quote(m.key) + ":" + u;
    ParsePrint(m.value, rest);
    ParseMemberStep(m.key, u, m.value, rest);
  }

  lemma {:induction false} ParsePrintMembers(members: Members, rest: Bytes)
    ensures ParseMembers(PrintMembers(members) + "}" + rest) == Some((members, rest))
    decreases members, 1
  {
    var s := PrintMembers(members) + "}" + rest;
    if members == [] {
      assert s == "}" + rest;
      assert s[1..] == rest;
    } else {
      var u := PrintMembers(members[1..]) + "}" + rest;
      assert s == "," + (PrintMember(members[0]) + u);
      ParsePrintMember(members[0], u);
      ParsePrintMembers(members[1..], rest);
      ParseMembersStep(PrintMember(members[0]) + u, members[0], u, members[1..], rest);
      assert [members[0]] + members[1..] == members;
    }
  }

  lemma ParseUndoesPrint(v: Json)
    ensures Parse(Print(v)) == Some(v)
  {
    ParsePrint(v, "");
    assert Print(v) + "" == Print(v);
  }
}
