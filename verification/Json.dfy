/** JSON texts: a compact writer and a reader following sections 2 to 7 of RFC 8259, and the proof that
    the reader undoes the writer. */
module Json {
  import opened Ir
  import opened Seqs

  datatype Json =
    | JNull
    | JBool(b: bool)
    | JNumber(token: string)
    | JString(s: string)
    | JArray(items: seq<Json>)
    | JObject(members: seq<Entry<Json>>)

  // ---- writing --------------------------------------------------------------------------------

  function HexDigit(n: nat): char
    requires n < 16
  {
    "0123456789abcdef"[n]
  }

  /** The escape of one character, as the printer chooses it. */
  function EscapeChar(c: char): string {
    if c == '"' then "\\\""
    else if c == '\\' then "\\\\"
    else if c == '\n' then "\\n"
    else if c == '\r' then "\\r"
    else if c == '\t' then "\\t"
    else if c as int == 8 then "\\b"
    else if c as int == 12 then "\\f"
    else if c as int < 0x20 then "\\u00" + [HexDigit(c as int / 16), HexDigit(c as int % 16)]
    else [c]
  }

  function Escape(s: string): string {
    if s == [] then [] else EscapeChar(s[0]) + Escape(s[1..])
  }

  function Quote(s: string): string {
    "\"" + Escape(s) + "\""
  }

  function Render(j: Json): string
    decreases j
  {
    match j
    case JNull => "null"
    case JBool(b) => if b then "true" else "false"
    case JNumber(t) => t
    case JString(s) => Quote(s)
    case JArray(items) => "[" + RenderItems(items) + "]"
    case JObject(members) => "{" + RenderMembers(members) + "}"
  }

  function RenderItems(items: seq<Json>): string
    decreases items
  {
    if items == [] then ""
    else if |items| == 1 then Render(items[0])
    else Render(items[0]) + "," + RenderItems(items[1..])
  }

  function RenderMember(m: Entry<Json>): string
    decreases m
  {
    Quote(m.key) + ":" + Render(m.val)
  }

  function RenderMembers(members: seq<Entry<Json>>): string
    decreases members
  {
    if members == [] then ""
    else if |members| == 1 then RenderMember(members[0])
    else RenderMember(members[0]) + "," + RenderMembers(members[1..])
  }

  // ---- reading: section 2 (grammar), 3 (literal names), 6 (numbers), 7 (strings) --------------

  predicate IsWs(c: char) {
    c == ' ' || c == '\t' || c == '\n' || c == '\r'
  }

  function SkipWs(s: string): (r: string)
    ensures |r| <= |s| && (r != [] ==> !IsWs(r[0]))
  {
    if s != [] && IsWs(s[0]) then SkipWs(s[1..]) else s
  }

  predicate IsDigit(c: char) {
    '0' <= c <= '9'
  }

  /** Length of the leading run of digits. */
  function Digits(s: string): (n: nat)
    ensures n <= |s|
  {
    if s != [] && IsDigit(s[0]) then 1 + Digits(s[1..]) else 0
  }

  function IntLen(s: string): (n: nat)
    ensures n <= |s|
  {
    if s != [] && s[0] == '0' then 1 else Digits(s)
  }

  /** Length of an optional fraction; `None` when a point is not followed by a digit. */
  function FracLen(s: string): (n: Option<nat>)
    ensures n.Some? ==> n.value <= |s|
  {
    if s != [] && s[0] == '.' then (if Digits(s[1..]) > 0 then Some(1 + Digits(s[1..])) else None) else Some(0)
  }

  function ExpLen(s: string): (n: Option<nat>)
    ensures n.Some? ==> n.value <= |s|
  {
    if s != [] && (s[0] == 'e' || s[0] == 'E') then
      var sign := if |s| > 1 && (s[1] == '+' || s[1] == '-') then 2 else 1;
      if Digits(s[sign..]) > 0 then Some(sign + Digits(s[sign..])) else None
    else Some(0)
  }

  /** Length of the number at the front of `s`. */
  function NumberLen(s: string): (n: Option<nat>)
    ensures n.Some? ==> 0 < n.value <= |s|
  {
    var minus := if s != [] && s[0] == '-' then 1 else 0;
    var whole := IntLen(s[minus..]);
    if whole == 0 then None
    else
      match FracLen(s[minus + whole..])
      case None => None
      case Some(frac) =>
        match ExpLen(s[minus + whole + frac..])
        case None => None
        case Some(exp) => Some(minus + whole + frac + exp)
  }

  function HexValue(c: char): (v: Option<nat>)
    ensures v.Some? ==> v.value < 16
  {
    if '0' <= c <= '9' then Some(c as int - '0' as int)
    else if 'a' <= c <= 'f' then Some(c as int - 'a' as int + 10)
    else if 'A' <= c <= 'F' then Some(c as int - 'A' as int + 10)
    else None
  }

  /** The code unit of four hexadecimal digits. */
  function CodeUnit(s: string): (u: Option<nat>)
    ensures u.Some? ==> |s| >= 4 && u.value < 0x1_0000
  {
    if |s| < 4 then None
    else
      match (HexValue(s[0]), HexValue(s[1]), HexValue(s[2]), HexValue(s[3]))
      case (Some(a), Some(b), Some(c), Some(d)) => Some(((a * 16 + b) * 16 + c) * 16 + d)
      case _ => None
  }

  /** The character an escape stands for and what follows it; `s` begins after the backslash.
      Surrogates must come in pairs. */
  function Unescape(s: string): (r: Option<(char, string)>)
    ensures r.Some? ==> |r.value.1| < |s|
  {
    if s == [] then None
    else if s[0] == '"' || s[0] == '\\' || s[0] == '/' then Some((s[0], s[1..]))
    else if s[0] == 'b' then Some((8 as char, s[1..]))
    else if s[0] == 'f' then Some((12 as char, s[1..]))
    else if s[0] == 'n' then Some(('\n', s[1..]))
    else if s[0] == 'r' then Some(('\r', s[1..]))
    else if s[0] == 't' then Some(('\t', s[1..]))
    else if s[0] == 'u' then
      match CodeUnit(s[1..])
      case None => None
      case Some(u) =>
        if u < 0xD800 || 0xE000 <= u then Some((u as char, s[5..]))
        else if u < 0xDC00 && |s| >= 7 && s[5] == '\\' && s[6] == 'u' then
          match CodeUnit(s[7..])
          case Some(low) =>
            if 0xDC00 <= low < 0xE000 then Some(((0x1_0000 + (u - 0xD800) * 0x400 + (low - 0xDC00)) as char, s[11..])) else None
          case None => None
        else None
    else None
  }

  /** The characters up to the closing quotation mark, and what follows it. */
  function ParseChars(s: string): (r: Option<(string, string)>)
    ensures r.Some? ==> |r.value.1| < |s|
    decreases |s|
  {
    if s == [] then None
    else if s[0] == '"' then Some(([], s[1..]))
    else if s[0] == '\\' then
      match Unescape(s[1..])
      case None => None
      case Some((c, rest)) =>
        (match ParseChars(rest) case Some((cs, last)) => Some(([c] + cs, last)) case None => None)
    else if s[0] as int < 0x20 then None
    else (match ParseChars(s[1..]) case Some((cs, last)) => Some(([s[0]] + cs, last)) case None => None)
  }

  function ParseName(s: string, name: string, j: Json): (r: Option<(Json, string)>)
    requires name != []
    ensures r.Some? ==> |r.value.1| < |s|
  {
    if name <= s then Some((j, s[|name|..])) else None
  }

  /** A value that is neither an array nor an object. */
  function ParseScalar(s: string): (r: Option<(Json, string)>)
    requires s != []
    ensures r.Some? ==> |r.value.1| < |s|
  {
    if s[0] == 'n' then ParseName(s, "null", JNull)
    else if s[0] == 't' then ParseName(s, "true", JBool(true))
    else if s[0] == 'f' then ParseName(s, "false", JBool(false))
    else if s[0] == '"' then
      (match ParseChars(s[1..]) case Some((cs, rest)) => Some((JString(cs), rest)) case None => None)
    else
      match NumberLen(s)
      case Some(n) => Some((JNumber(s[..n]), s[n..]))
      case None => None
  }

  /** One value, leading whitespace included, and what follows it. */
  function ParseValue(text: string): (r: Option<(Json, string)>)
    ensures r.Some? ==> |r.value.1| < |text|
    decreases |text|, 2
  {
    var s := SkipWs(text);
    if s == [] then None
    else if s[0] == '[' then ParseArray(s[1..])
    else if s[0] == '{' then ParseObject(s[1..])
    else ParseScalar(s)
  }

  function ParseArray(s: string): (r: Option<(Json, string)>)
    ensures r.Some? ==> |r.value.1| < |s|
    decreases |s|, 4
  {
    var inner := SkipWs(s);
    if inner != [] && inner[0] == ']' then Some((JArray([]), inner[1..]))
    else (match ParseItems(s) case Some((items, rest)) => Some((JArray(items), rest)) case None => None)
  }

  function ParseObject(s: string): (r: Option<(Json, string)>)
    ensures r.Some? ==> |r.value.1| < |s|
    decreases |s|, 5
  {
    var inner := SkipWs(s);
    if inner != [] && inner[0] == '}' then Some((JObject([]), inner[1..]))
    else (match ParseMembers(s) case Some((ms, rest)) => Some((JObject(ms), rest)) case None => None)
  }

  /** One or more values up to the closing bracket. */
  function ParseItems(s: string): (r: Option<(seq<Json>, string)>)
    ensures r.Some? ==> |r.value.1| < |s|
    decreases |s|, 3
  {
    match ParseValue(s)
    case None => None
    case Some((j, rest)) =>
      var after := SkipWs(rest);
      if after == [] then None
      else if after[0] == ']' then Some(([j], after[1..]))
      else if after[0] == ',' then
        (match ParseItems(after[1..]) case Some((js, last)) => Some(([j] + js, last)) case None => None)
      else None
  }

  function ParseMember(text: string): (r: Option<(Entry<Json>, string)>)
    ensures r.Some? ==> |r.value.1| < |text|
    decreases |text|, 3
  {
    var s := SkipWs(text);
    if s == [] || s[0] != '"' then None
    else
      match ParseChars(s[1..])
      case None => None
      case Some((key, rest)) =>
        var after := SkipWs(rest);
        if after == [] || after[0] != ':' then None
        else
          match ParseValue(after[1..])
          case Some((j, last)) => Some((Entry(key, j), last))
          case None => None
  }

  function ParseMembers(s: string): (r: Option<(seq<Entry<Json>>, string)>)
    ensures r.Some? ==> |r.value.1| < |s|
    decreases |s|, 4
  {
    match ParseMember(s)
    case None => None
    case Some((m, rest)) =>
      var after := SkipWs(rest);
      if after == [] then None
      else if after[0] == '}' then Some(([m], after[1..]))
      else if after[0] == ',' then
        (match ParseMembers(after[1..]) case Some((ms, last)) => Some(([m] + ms, last)) case None => None)
      else None
  }

  /** A whole JSON text: one value and nothing but whitespace after it. */
  function ParseText(s: string): Option<Json> {
    match ParseValue(s)
    case Some((j, rest)) => if SkipWs(rest) == [] then Some(j) else None
    case None => None
  }

  // ---- the reader undoes the writer -----------------------------------------------------------

  predicate IsNumber(token: string) {
    NumberLen(token) == Some(|token|)
  }

  /** Every number token in the tree is a number of the grammar. */
  ghost predicate WellFormed(j: Json)
    decreases j
  {
    match j
    case JNumber(t) => IsNumber(t)
    case JArray(items) => forall i :: 0 <= i < |items| ==> WellFormed(items[i])
    case JObject(members) => forall i :: 0 <= i < |members| ==> WellFormedMember(members[i])
    case _ => true
  }

  ghost predicate WellFormedMember(m: Entry<Json>)
    decreases m
  {
    WellFormed(m.val)
  }

  /** What may follow a number without extending it. */
  predicate Delimited(rest: string) {
    rest == [] || !(IsDigit(rest[0]) || rest[0] in {'.', 'e', 'E'})
  }

  lemma {:induction false} DigitsAppend(s: string, rest: string)
    requires rest == [] || !IsDigit(rest[0])
    ensures Digits(s + rest) == Digits(s)
    decreases |s|
  {
    if s == [] {
      assert s + rest == rest;
    } else if IsDigit(s[0]) {
      assert (s + rest)[1..] == s[1..] + rest;
      DigitsAppend(s[1..], rest);
    }
  }

  lemma FracAppend(s: string, rest: string)
    requires Delimited(rest) && FracLen(s).Some?
    ensures FracLen(s + rest) == FracLen(s)
  {
    if s == [] {
      assert s + rest == rest;
    } else {
      assert (s + rest)[1..] == s[1..] + rest;
      DigitsAppend(s[1..], rest);
    }
  }

  lemma ExpAppend(s: string, rest: string)
    requires Delimited(rest) && ExpLen(s).Some?
    ensures ExpLen(s + rest) == ExpLen(s)
  {
    if s == [] {
      assert s + rest == rest;
    } else if s[0] == 'e' || s[0] == 'E' {
      var sign := if |s| > 1 && (s[1] == '+' || s[1] == '-') then 2 else 1;
      assert (s + rest)[sign..] == s[sign..] + rest;
      DigitsAppend(s[sign..], rest);
    }
  }

  lemma IntAppend(s: string, rest: string)
    requires Delimited(rest)
    ensures IntLen(s + rest) == IntLen(s)
  {
    DigitsAppend(s, rest);
    if s == [] { assert s + rest == rest; }
  }

  lemma DropAppend(s: string, rest: string, n: nat)
    requires n <= |s|
    ensures (s + rest)[n..] == s[n..] + rest
  {
  }

  lemma NumberAppend(t: string, rest: string)
    requires IsNumber(t) && Delimited(rest)
    ensures NumberLen(t + rest) == Some(|t|)
  {
    hide Digits, IntLen, FracLen, ExpLen, Delimited;
    var minus := if t[0] == '-' then 1 else 0;
    DropAppend(t, rest, minus);
    IntAppend(t[minus..], rest);
    var whole := IntLen(t[minus..]);
    DropAppend(t, rest, minus + whole);
    FracAppend(t[minus + whole..], rest);
    var frac := FracLen(t[minus + whole..]).value;
    DropAppend(t, rest, minus + whole + frac);
    ExpAppend(t[minus + whole + frac..], rest);
  }

  /** Reading back one escaped character. */
  lemma EscapeReads(c: char, rest: string)
    ensures ParseChars(EscapeChar(c) + rest) ==
            match ParseChars(rest) case Some((cs, last)) => Some(([c] + cs, last)) case None => None
  {
    var e := EscapeChar(c);
    var text := e + rest;
    hide CodeUnit;
    if |e| == 1 {
      assert text[1..] == rest;
    } else if |e| == 2 {
      assert text[1..][1..] == rest;
      assert text[1..][0] == e[1];
    } else {
      var n := c as int;
      assert e == "\\u00" + [HexDigit(n / 16), HexDigit(n % 16)];
      assert text[1..][1..][..4] == "00" + [HexDigit(n / 16), HexDigit(n % 16)];
      assert text[1..][5..] == rest;
      SmallCodeUnit(text[1..][1..], n);
    }
  }

  lemma SmallCodeUnit(s: string, n: nat)
    requires n < 0x20 && |s| >= 4 && s[..4] == "00" + [HexDigit(n / 16), HexDigit(n % 16)]
    ensures CodeUnit(s) == Some(n)
  {
    HexReads(n / 16);
    HexReads(n % 16);
    assert s[0] == s[..4][0] && s[1] == s[..4][1] && s[2] == s[..4][2] && s[3] == s[..4][3];
  }

  lemma HexReads(n: nat)
    requires n < 16
    ensures HexValue(HexDigit(n)) == Some(n)
  {
  }

  lemma {:induction false} EscapedReads(s: string, rest: string)
    ensures ParseChars(Escape(s) + ("\"" + rest)) == Some((s, rest))
    decreases |s|
  {
    if s == [] {
      assert Escape(s) + ("\"" + rest) == "\"" + rest;
      assert ("\"" + rest)[1..] == rest;
    } else {
      hide ParseChars, EscapeChar;
      EscapedReads(s[1..], rest);
      var tail := Escape(s[1..]) + ("\"" + rest);
      ConcatAssoc(EscapeChar(s[0]), Escape(s[1..]), "\"" + rest);
      EscapeReads(s[0], tail);
      assert s == [s[0]] + s[1..];
    }
  }

  lemma QuoteSplits(s: string, rest: string)
    ensures Quote(s) + rest == "\"" + (Escape(s) + ("\"" + rest))
  {
  }

  /** No rendered value starts with whitespace or a closing bracket. */
  lemma RenderStart(j: Json)
    requires WellFormed(j)
    ensures Render(j) != [] && !IsWs(Render(j)[0]) && Render(j)[0] != ']' && Render(j)[0] != '}'
  {
    if j.JNumber? {
      var t := j.token;
      assert t[0] == '-' || IsDigit(t[0]);
    }
  }

  lemma NoSkip(s: string)
    requires s == [] || !IsWs(s[0])
    ensures SkipWs(s) == s
  {
  }

  /** The first character of a value says which reader takes over. */
  lemma Dispatch(s: string)
    requires s != [] && !IsWs(s[0])
    ensures s[0] == '[' ==> ParseValue(s) == ParseArray(s[1..])
    ensures s[0] == '{' ==> ParseValue(s) == ParseObject(s[1..])
    ensures s[0] != '[' && s[0] != '{' ==> ParseValue(s) == ParseScalar(s)
  {
    NoSkip(s);
    hide ParseArray, ParseObject, ParseScalar, SkipWs;
  }

  lemma NameReads(j: Json, rest: string)
    requires j.JNull? || j.JBool?
    ensures ParseScalar(Render(j) + rest) == Some((j, rest))
  {
    var text := Render(j) + rest;
    assert text[|Render(j)|..] == rest && Render(j) <= text;
  }

  lemma NumberStart(t: string)
    requires IsNumber(t)
    ensures t != [] && (t[0] == '-' || IsDigit(t[0]))
  {
  }

  lemma NumberReads(t: string, rest: string)
    requires IsNumber(t) && Delimited(rest)
    ensures ParseScalar(t + rest) == Some((JNumber(t), rest))
  {
    hide NumberLen, Delimited, ParseScalar, IsNumber;
    NumberStart(t);
    NumberAppend(t, rest);
    ScalarNumber(t + rest, |t|);
    assert (t + rest)[..|t|] == t && (t + rest)[|t|..] == rest;
  }

  lemma ScalarNumber(s: string, n: nat)
    requires s != [] && (s[0] == '-' || IsDigit(s[0])) && NumberLen(s) == Some(n)
    ensures ParseScalar(s) == Some((JNumber(s[..n]), s[n..]))
  {
    hide NumberLen, ParseChars, ParseName;
  }

  /** An opening quotation mark hands over to the string reader. */
  lemma StringReads(s: string, rest: string)
    ensures ParseScalar(Quote(s) + rest) == Some((JString(s), rest))
  {
    var text := Quote(s) + rest;
    QuoteSplits(s, rest);
    assert text[1..] == Escape(s) + ("\"" + rest);
    EscapedReads(s, rest);
    hide ParseChars, NumberLen, ParseName;
  }

  lemma {:induction false} RenderReads(j: Json, rest: string)
    requires WellFormed(j) && (j.JNumber? ==> Delimited(rest))
    ensures ParseValue(Render(j) + rest) == Some((j, rest))
    decreases j, 2
  {
    hide ParseValue, ParseArray, ParseObject, ParseScalar, NumberLen, Escape;
    var text := Render(j) + rest;
    RenderStart(j);
    Dispatch(text);
    match j
    case JNull => NameReads(j, rest);
    case JBool(_) => NameReads(j, rest);
    case JNumber(t) => NumberStart(t); NumberReads(t, rest);
    case JString(s) => StringReads(s, rest);
    case JArray(items) =>
      assert text[1..] == RenderItems(items) + ("]" + rest);
      ArrayReads(items, rest);
    case JObject(members) =>
      assert text[1..] == RenderMembers(members) + ("}" + rest);
      ObjectReads(members, rest);
  }

  lemma {:induction false} ArrayReads(items: seq<Json>, rest: string)
    requires forall i :: 0 <= i < |items| ==> WellFormed(items[i])
    ensures ParseArray(RenderItems(items) + ("]" + rest)) == Some((JArray(items), rest))
    decreases items, 1
  {
    hide ParseItems, RenderItems;
    var body := RenderItems(items) + ("]" + rest);
    if items == [] {
      EmptyLists();
      assert body == "]" + rest && body[1..] == rest;
    } else {
      ItemsStart(items);
      ItemsRead(items, rest);
    }
    NoSkip(body);
  }

  lemma {:induction false} ObjectReads(members: seq<Entry<Json>>, rest: string)
    requires forall i :: 0 <= i < |members| ==> WellFormedMember(members[i])
    ensures ParseObject(RenderMembers(members) + ("}" + rest)) == Some((JObject(members), rest))
    decreases members, 1
  {
    hide ParseMembers, RenderMembers;
    var body := RenderMembers(members) + ("}" + rest);
    if members == [] {
      EmptyLists();
      assert body == "}" + rest && body[1..] == rest;
    } else {
      MembersStart(members);
      MembersRead(members, rest);
    }
    NoSkip(body);
  }

  lemma EmptyLists()
    ensures RenderItems([]) == "" && RenderMembers([]) == ""
  {
  }

  lemma MembersStart(members: seq<Entry<Json>>)
    requires members != []
    ensures RenderMembers(members) != [] && RenderMembers(members)[0] == '"'
  {
  }

  lemma ItemsStart(items: seq<Json>)
    requires items != [] && WellFormed(items[0])
    ensures RenderItems(items) != [] && !IsWs(RenderItems(items)[0]) && RenderItems(items)[0] != ']'
  {
    RenderStart(items[0]);
  }

  /** What follows a value inside brackets decides whether the array goes on. */
  lemma ItemsStep(s: string, j: Json, after: string)
    requires ParseValue(s) == Some((j, after)) && after != [] && !IsWs(after[0])
    ensures after[0] == ']' ==> ParseItems(s) == Some(([j], after[1..]))
    ensures after[0] == ',' ==>
              ParseItems(s) == match ParseItems(after[1..]) case Some((js, last)) => Some(([j] + js, last)) case None => None
  {
    hide ParseValue;
    NoSkip(after);
  }

  lemma {:induction false} ItemsRead(items: seq<Json>, rest: string)
    requires items != [] && forall i :: 0 <= i < |items| ==> WellFormed(items[i])
    ensures ParseItems(RenderItems(items) + ("]" + rest)) == Some((items, rest))
    decreases items, 0
  {
    hide ParseValue, ParseItems, Render, WellFormed;
    if |items| == 1 {
      var text := Render(items[0]) + ("]" + rest);
      RenderReads(items[0], "]" + rest);
      ItemsStep(text, items[0], "]" + rest);
      assert ("]" + rest)[1..] == rest && items == [items[0]];
    } else {
      var tail := RenderItems(items[1..]) + ("]" + rest);
      var text := Render(items[0]) + ("," + tail);
      assert RenderItems(items) + ("]" + rest) == text;
      RenderReads(items[0], "," + tail);
      ItemsStep(text, items[0], "," + tail);
      assert ("," + tail)[1..] == tail;
      ItemsRead(items[1..], rest);
      assert items == [items[0]] + items[1..];
    }
  }

  lemma MemberStep(s: string, key: string, rest: string)
    requires s != [] && s[0] == '"' && ParseChars(s[1..]) == Some((key, rest)) && rest != [] && rest[0] == ':'
    ensures ParseMember(s) ==
            match ParseValue(rest[1..]) case Some((j, last)) => Some((Entry(key, j), last)) case None => None
  {
    NoSkip(s);
    NoSkip(rest);
    hide ParseValue, ParseChars;
  }

  lemma {:induction false} MemberReads(m: Entry<Json>, rest: string)
    requires WellFormedMember(m) && (m.val.JNumber? ==> Delimited(rest))
    ensures ParseMember(RenderMember(m) + rest) == Some((m, rest))
    decreases m, 3
  {
    hide ParseMember, ParseValue, ParseChars, Render, Escape, WellFormed;
    var text := RenderMember(m) + rest;
    var value := Render(m.val) + rest;
    assert text == Quote(m.key) + (":" + value);
    QuoteSplits(m.key, ":" + value);
    assert text[1..] == Escape(m.key) + ("\"" + (":" + value));
    EscapedReads(m.key, ":" + value);
    assert (":" + value)[1..] == value;
    MemberStep(text, m.key, ":" + value);
    RenderReads(m.val, rest);
  }

  lemma MembersStep(s: string, m: Entry<Json>, after: string)
    requires ParseMember(s) == Some((m, after)) && after != [] && !IsWs(after[0])
    ensures after[0] == '}' ==> ParseMembers(s) == Some(([m], after[1..]))
    ensures after[0] == ',' ==>
              ParseMembers(s) == match ParseMembers(after[1..]) case Some((ms, last)) => Some(([m] + ms, last)) case None => None
  {
    hide ParseMember;
    NoSkip(after);
  }

  lemma {:induction false} MembersRead(members: seq<Entry<Json>>, rest: string)
    requires members != [] && forall i :: 0 <= i < |members| ==> WellFormedMember(members[i])
    ensures ParseMembers(RenderMembers(members) + ("}" + rest)) == Some((members, rest))
    decreases members, 0
  {
    hide ParseMember, ParseMembers, RenderMember, WellFormedMember;
    if |members| == 1 {
      var text := RenderMember(members[0]) + ("}" + rest);
      MemberReads(members[0], "}" + rest);
      MembersStep(text, members[0], "}" + rest);
      assert ("}" + rest)[1..] == rest && members == [members[0]];
    } else {
      var tail := RenderMembers(members[1..]) + ("}" + rest);
      var text := RenderMember(members[0]) + ("," + tail);
      assert RenderMembers(members) + ("}" + rest) == text;
      MemberReads(members[0], "," + tail);
      MembersStep(text, members[0], "," + tail);
      assert ("," + tail)[1..] == tail;
      MembersRead(members[1..], rest);
      assert members == [members[0]] + members[1..];
    }
  }

  /** Reading a rendered tree consumes the whole text and returns the tree. */
  lemma RoundTrip(j: Json)
    requires WellFormed(j)
    ensures ParseText(Render(j)) == Some(j)
  {
    RenderReads(j, "");
    assert Render(j) + "" == Render(j);
  }

  /** Rendering is injective. */
  lemma RenderInjective(a: Json, b: Json)
    requires WellFormed(a) && WellFormed(b)
    ensures Render(a) == Render(b) <==> a == b
  {
    RoundTrip(a);
    RoundTrip(b);
  }
}
