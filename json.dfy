/** The JSON documents the store writes and reads: plain-paste headers and
    album files.

    `Encode` is `json.dumps` with its defaults (separators ", " and ": ",
    `ensure_ascii`); objects are written in the order their fields are given,
    which callers build in the sorted order `sort_keys=True` produces.
    `Decode` is `json.loads` for documents made of null, booleans, integers,
    strings, lists and objects. */
module Json {
  import opened Wrappers
  import opened Text

  datatype Value =
    | Null
    | Bool(b: bool)
    | Int(i: int)
    | Str(s: string)
    | Arr(items: seq<Value>)
    | Obj(fields: seq<Field>)

  datatype Field = Field(key: string, val: Value)

  /** Python's `bool(v)` on the decoded value. */
  predicate Truthy(v: Value) {
    match v
    case Null => false
    case Bool(b) => b
    case Int(i) => i != 0
    case Str(s) => s != ""
    case Arr(items) => items != []
    case Obj(fields) => fields != []
  }

  /** `isinstance(v, int)` and the integer it holds; `bool` is a subclass of
      `int` in Python, so `true` and `false` are 1 and 0. */
  function AsInt(v: Value): (r: Option<int>)
    ensures r.Some? <==> v.Int? || v.Bool?
    ensures v.Int? ==> r == Some(v.i)
    ensures v.Bool? ==> r == Some(if v.b then 1 else 0)
  {
    match v
    case Int(i) => Some(i)
    case Bool(b) => Some(if b then 1 else 0)
    case _ => None
  }

  /** `d[key]` / `d.get(key)` on the dict built from `fields`: a repeated key
      keeps the value of its last occurrence. */
  function Get(fields: seq<Field>, key: string): (r: Option<Value>)
    ensures r.None? <==> forall i :: 0 <= i < |fields| ==> fields[i].key != key
    ensures r.Some? ==> exists i :: 0 <= i < |fields| && fields[i] == Field(key, r.value)
                                    && forall j :: i < j < |fields| ==> fields[j].key != key
  {
    if fields == [] then None
    else match Get(fields[1..], key)
      case Some(v) =>
        var i :| 0 <= i < |fields[1..]| && fields[1..][i] == Field(key, v)
                 && forall j :: i < j < |fields[1..]| ==> fields[1..][j].key != key;
        assert fields[i + 1] == Field(key, v);
        Some(v)
      case None =>
        if fields[0].key == key then Some(fields[0].val) else None
  }

  // ---------------------------------------------------------------------
  // Encoding
  // ---------------------------------------------------------------------

  predicate Printable(c: char) {
    ' ' <= c <= '~'
  }

  predicate AllPrintable(s: string) {
    forall i :: 0 <= i < |s| ==> Printable(s[i])
  }

  function HexDigit(d: nat): (c: char)
    requires d < 16
  {
    if d < 10 then ('0' as int + d) as char else ('a' as int + d - 10) as char
  }

  /** The four lower-case hexadecimal digits of a `\uXXXX` escape. */
  function Hex4(n: nat): (r: string)
    requires n < 0x10000
    ensures |r| == 4
  {
    [HexDigit(n / 16 / 16 / 16), HexDigit(n / 16 / 16 % 16), HexDigit(n / 16 % 16), HexDigit(n % 16)]
  }

  /** One character of a string literal under `ensure_ascii`. */
  function EscapeChar(c: char): (r: string)
    ensures 0 < |r|
  {
    if c == '"' then "\\\""
    else if c == '\\' then "\\\\"
    else if c == '\n' then "\\n"
    else if c == '\r' then "\\r"
    else if c == '\t' then "\\t"
    else if c as int == 8 then "\\b"
    else if c as int == 12 then "\\f"
    else if Printable(c) then [c]
    else if c as int < 0x10000 then "\\u" + Hex4(c as int)
    else "\\u" + Hex4(HighSurrogate(c)) + "\\u" + Hex4(LowSurrogate(c))
  }

  /** The UTF-16 halves of a character beyond the Basic Multilingual Plane. */
  function HighSurrogate(c: char): (h: nat)
    requires c as int >= 0x10000
    ensures 0xD800 <= h < 0xDC00
  {
    0xD800 + (c as int - 0x10000) / 0x400
  }

  function LowSurrogate(c: char): (l: nat)
    requires c as int >= 0x10000
    ensures 0xDC00 <= l < 0xE000
  {
    0xDC00 + (c as int - 0x10000) % 0x400
  }

  function Escape(s: string): string {
    if s == [] then "" else EscapeChar(s[0]) + Escape(s[1..])
  }

  function Quote(s: string): (r: string)
    ensures |r| >= 2 && r[0] == '"'
  {
    "\"" + Escape(s) + "\""
  }

  function DigitChar(d: nat): char
    requires d < 10
  {
    ('0' as int + d) as char
  }

  /** Decimal digits of `n`, with no leading zero. */
  function NatText(n: nat): (r: string)
    ensures 0 < |r|
    ensures forall i :: 0 <= i < |r| ==> IsDigit(r[i])
  {
    if n < 10 then [DigitChar(n)] else NatText(n / 10) + [DigitChar(n % 10)]
  }

  function IntText(i: int): (r: string)
    ensures 0 < |r| && (r[0] == '-' || IsDigit(r[0]))
  {
    if i < 0 then "-" + NatText(-i) else NatText(i)
  }

  function Encode(v: Value): (r: string)
    ensures 0 < |r| && !IsWs(r[0]) && r[0] != ']' && r[0] != '}'
    decreases v
  {
    match v
    case Null => "null"
    case Bool(b) => if b then "true" else "false"
    case Int(i) => IntText(i)
    case Str(s) => Quote(s)
    case Arr(items) => "[" + EncodeItems(items) + "]"
    case Obj(fields) => "{" + EncodeFields(fields) + "}"
  }

  function EncodeItems(items: seq<Value>): (r: string)
    ensures items != [] ==> 0 < |r| && !IsWs(r[0]) && r[0] != ']'
    decreases items
  {
    if items == [] then ""
    else if |items| == 1 then Encode(items[0])
    else Encode(items[0]) + ", " + EncodeItems(items[1..])
  }

  function EncodeField(f: Field): (r: string)
    ensures 0 < |r| && r[0] == '"'
    decreases f
  {
    Quote(f.key) + ": " + Encode(f.val)
  }

  function EncodeFields(fields: seq<Field>): (r: string)
    ensures fields != [] ==> 0 < |r| && r[0] == '"'
    decreases fields
  {
    if fields == [] then ""
    else if |fields| == 1 then EncodeField(fields[0])
    else EncodeField(fields[0]) + ", " + EncodeFields(fields[1..])
  }

  /** `json.dumps(v).encode()`: the document is printable ASCII, so it never
      holds the newline byte. */
  function EncodeBytes(v: Value): (r: seq<byte>)
    ensures |r| > 0
    ensures forall i :: 0 <= i < |r| ==> 32 <= r[i] <= 126
    ensures Newline !in r
  {
    var s := Encode(v);
    EncodePrintable(v);
    AsciiBytes(s)
  }

  lemma Hex4Printable(n: nat)
    requires n < 0x10000
    ensures AllPrintable(Hex4(n))
  {
    var h := Hex4(n);
    assert h[0] == HexDigit(n / 16 / 16 / 16) && h[1] == HexDigit(n / 16 / 16 % 16);
    assert h[2] == HexDigit(n / 16 % 16) && h[3] == HexDigit(n % 16);
  }

  lemma PrintableConcat(a: string, b: string)
    requires AllPrintable(a) && AllPrintable(b)
    ensures AllPrintable(a + b)
  {
  }

  lemma EscapeCharPrintable(c: char)
    ensures AllPrintable(EscapeChar(c))
  {
    if Printable(c) || c == '"' || c == '\\' || c == '\n' || c == '\r' || c == '\t' || c as int == 8 || c as int == 12 {
    } else if c as int < 0x10000 {
      Hex4Printable(c as int);
      PrintableConcat("\\u", Hex4(c as int));
    } else {
      var h, l := Hex4(HighSurrogate(c)), Hex4(LowSurrogate(c));
      Hex4Printable(HighSurrogate(c));
      Hex4Printable(LowSurrogate(c));
      PrintableConcat("\\u", h);
      PrintableConcat("\\u" + h, "\\u");
      PrintableConcat("\\u" + h + "\\u", l);
    }
  }

  lemma {:induction false} EscapePrintable(s: string)
    ensures AllPrintable(Escape(s))
    decreases |s|
  {
    if s != [] {
      EscapeCharPrintable(s[0]);
      EscapePrintable(s[1..]);
    }
  }

  /** Every encoded document is printable ASCII: `ensure_ascii` escapes
      control characters (the newline among them) and everything beyond `~`. */
  lemma {:induction false} EncodePrintable(v: Value)
    ensures AllPrintable(Encode(v))
    decreases v, 1
  {
    match v
    case Null =>
    case Bool(_) =>
    case Int(i) =>
    case Str(t) => EscapePrintable(t);
    case Arr(items) => ItemsPrintable(items);
    case Obj(fields) => FieldsPrintable(fields);
  }

  lemma {:induction false} ItemsPrintable(items: seq<Value>)
    ensures AllPrintable(EncodeItems(items))
    decreases items, 0
  {
    if items != [] {
      EncodePrintable(items[0]);
      ItemsPrintable(items[1..]);
    }
  }

  lemma {:induction false} FieldsPrintable(fields: seq<Field>)
    ensures AllPrintable(EncodeFields(fields))
    decreases fields, 0
  {
    if fields != [] {
      assert fields[0] in fields;
      EscapePrintable(fields[0].key);
      EncodePrintable(fields[0].val);
      FieldsPrintable(fields[1..]);
    }
  }

  // ---------------------------------------------------------------------
  // Decoding
  // ---------------------------------------------------------------------

  predicate IsWs(c: char) {
    c == ' ' || c == '\t' || c == '\n' || c == '\r'
  }

  predicate IsDigit(c: char) {
    '0' <= c <= '9'
  }

  function SkipWs(s: string): (r: string)
    ensures |r| <= |s|
    ensures r == [] || !IsWs(r[0])
  {
    if s != [] && IsWs(s[0]) then SkipWs(s[1..]) else s
  }

  /** A single space before a token is skipped. */
  lemma SkipSpace(t: string)
    requires t == [] || !IsWs(t[0])
    ensures SkipWs(" " + t) == t
  {
    assert (" " + t)[1..] == t;
  }

  function HexValue(c: char): Option<nat> {
    if '0' <= c <= '9' then Some(c as int - '0' as int)
    else if 'a' <= c <= 'f' then Some(c as int - 'a' as int + 10)
    else if 'A' <= c <= 'F' then Some(c as int - 'A' as int + 10)
    else None
  }

  /** Exactly four hexadecimal digits. */
  function ParseHex4(s: string): (r: Option<(nat, string)>)
    ensures r.Some? ==> r.value.0 < 0x10000 && |s| >= 4 && r.value.1 == s[4..]
  {
    if |s| < 4 then None
    else match (HexValue(s[0]), HexValue(s[1]), HexValue(s[2]), HexValue(s[3]))
      case (Some(a), Some(b), Some(c), Some(d)) =>
        assert a < 16 && b < 16 && c < 16 && d < 16;
        Some((((a * 16 + b) * 16 + c) * 16 + d, s[4..]))
      case _ => None
  }

  /** The character an escape sequence stands for; `s` starts just after the
      backslash. A surrogate half that is not part of a pair is refused. */
  function ParseEscape(s: string): (r: Option<(char, string)>)
    ensures r.Some? ==> |r.value.1| < |s|
  {
    if s == [] then None
    else if s[0] == '"' then Some(('"', s[1..]))
    else if s[0] == '\\' then Some(('\\', s[1..]))
    else if s[0] == '/' then Some(('/', s[1..]))
    else if s[0] == 'b' then Some((8 as char, s[1..]))
    else if s[0] == 'f' then Some((12 as char, s[1..]))
    else if s[0] == 'n' then Some(('\n', s[1..]))
    else if s[0] == 'r' then Some(('\r', s[1..]))
    else if s[0] == 't' then Some(('\t', s[1..]))
    else if s[0] == 'u' then
      match ParseHex4(s[1..])
      case None => None
      case Some((hi, rest)) =>
        if 0xD800 <= hi < 0xDC00 then
          if |rest| >= 2 && rest[0] == '\\' && rest[1] == 'u' then
            match ParseHex4(rest[2..])
            case None => None
            case Some((lo, rest2)) =>
              if 0xDC00 <= lo < 0xE000 then
                Some(((0x10000 + (hi - 0xD800) * 0x400 + (lo - 0xDC00)) as char, rest2))
              else None
          else None
        else if 0xDC00 <= hi < 0xE000 then None
        else Some((hi as char, rest))
    else None
  }

  /** The body of a string literal up to its closing quote; `s` starts just
      after the opening quote. Raw control characters are refused. */
  function ParseStrBody(s: string): (r: Option<(string, string)>)
    ensures r.Some? ==> |r.value.1| < |s|
    decreases |s|
  {
    if s == [] then None
    else if s[0] == '"' then Some(("", s[1..]))
    else if s[0] == '\\' then
      match ParseEscape(s[1..])
      case None => None
      case Some((c, rest)) =>
        match ParseStrBody(rest)
        case None => None
        case Some((t, rest2)) => Some(([c] + t, rest2))
    else if (s[0] as int) < 0x20 then None
    else
      match ParseStrBody(s[1..])
      case None => None
      case Some((t, rest2)) => Some(([s[0]] + t, rest2))
  }

  /** Number of leading decimal digits. */
  function DigitRun(s: string): (k: nat)
    ensures k <= |s|
    ensures forall i :: 0 <= i < k ==> IsDigit(s[i])
    ensures k == |s| || !IsDigit(s[k])
  {
    if s != [] && IsDigit(s[0]) then 1 + DigitRun(s[1..]) else 0
  }

  function DigitsValue(ds: string): nat
    requires forall i :: 0 <= i < |ds| ==> IsDigit(ds[i])
  {
    if ds == [] then 0
    else
      assert IsDigit(ds[|ds| - 1]);
      DigitsValue(ds[..|ds| - 1]) * 10 + (ds[|ds| - 1] as int - '0' as int)
  }

  /** An integer literal `-?(0|[1-9][0-9]*)`. A fraction or exponent that
      follows is left in the remainder, where no continuation accepts it. */
  function ParseNumber(s: string): (r: Option<(int, string)>)
    ensures r.Some? ==> |r.value.1| < |s|
  {
    var neg := s != [] && s[0] == '-';
    var t := if neg then s[1..] else s;
    if t == [] || !IsDigit(t[0]) then None
    else if t[0] == '0' then Some((0, t[1..]))
    else
      var k := DigitRun(t);
      var n: int := DigitsValue(t[..k]);
      Some((if neg then -n else n, t[k..]))
  }

  /** One value starting exactly at the head of `s`. */
  function ParseValue(s: string): (r: Option<(Value, string)>)
    ensures r.Some? ==> |r.value.1| < |s|
    decreases |s|, 0
  {
    if s == [] then None
    else if s[0] == '"' then
      match ParseStrBody(s[1..])
      case None => None
      case Some((t, rest)) => Some((Str(t), rest))
    else if s[0] == '{' then
      match ParseObject(s[1..])
      case None => None
      case Some((fs, rest)) => Some((Obj(fs), rest))
    else if s[0] == '[' then
      match ParseArray(s[1..])
      case None => None
      case Some((vs, rest)) => Some((Arr(vs), rest))
    else if "null" <= s then Some((Null, s[4..]))
    else if "true" <= s then Some((Bool(true), s[4..]))
    else if "false" <= s then Some((Bool(false), s[5..]))
    else
      match ParseNumber(s)
      case None => None
      case Some((n, rest)) => Some((Int(n), rest))
  }

  /** A list after its `[`. */
  function ParseArray(s: string): (r: Option<(seq<Value>, string)>)
    ensures r.Some? ==> |r.value.1| < |s|
    decreases |s|, 2
  {
    var t := SkipWs(s);
    if t != [] && t[0] == ']' then Some(([], t[1..])) else ParseItems(t)
  }

  /** `value (, value)* ]` */
  function ParseItems(s: string): (r: Option<(seq<Value>, string)>)
    ensures r.Some? ==> |r.value.1| < |s|
    decreases |s|, 1
  {
    match ParseValue(s)
    case None => None
    case Some((v, rest)) =>
      var t := SkipWs(rest);
      if t == [] then None
      else if t[0] == ']' then Some(([v], t[1..]))
      else if t[0] == ',' then
        match ParseItems(SkipWs(t[1..]))
        case None => None
        case Some((vs, rest2)) => Some(([v] + vs, rest2))
      else None
  }

  /** An object after its `{`. */
  function ParseObject(s: string): (r: Option<(seq<Field>, string)>)
    ensures r.Some? ==> |r.value.1| < |s|
    decreases |s|, 2
  {
    var t := SkipWs(s);
    if t != [] && t[0] == '}' then Some(([], t[1..])) else ParseMembers(t)
  }

  /** `"key": value (, "key": value)* }` */
  function ParseMembers(s: string): (r: Option<(seq<Field>, string)>)
    ensures r.Some? ==> |r.value.1| < |s|
    decreases |s|, 1
  {
    if s == [] || s[0] != '"' then None
    else match ParseStrBody(s[1..])
      case None => None
      case Some((k, rest)) =>
        var t := SkipWs(rest);
        if t == [] || t[0] != ':' then None
        else match ParseValue(SkipWs(t[1..]))
          case None => None
          case Some((v, rest2)) =>
            var u := SkipWs(rest2);
            if u == [] then None
            else if u[0] == '}' then Some(([Field(k, v)], u[1..]))
            else if u[0] == ',' then
              match ParseMembers(SkipWs(u[1..]))
              case None => None
              case Some((fs, rest3)) => Some(([Field(k, v)] + fs, rest3))
            else None
  }

  /** `json.loads(s)`: one value, surrounded by optional white space. */
  function Decode(s: string): Option<Value> {
    match ParseValue(SkipWs(s))
    case None => None
    case Some((v, rest)) => if SkipWs(rest) == [] then Some(v) else None
  }

  /** `json.loads(bs.decode())`. */
  function DecodeBytes(bs: seq<byte>): Option<Value> {
    match AsciiDecode(bs)
    case None => None
    case Some(s) => Decode(s)
  }

  // ---------------------------------------------------------------------
  // Round trip
  // ---------------------------------------------------------------------

  // One-step unfoldings of the parser, stated once so that the round-trip
  // proofs below do not unfold the parser on concrete documents.

  lemma StrBodyEscapeStep(e: string, c: char, r: string)
    requires ParseEscape(e) == Some((c, r))
    ensures ParseStrBody("\\" + e) ==
            match ParseStrBody(r)
            case None => None
            case Some((t, r2)) => Some(([c] + t, r2))
  {
    assert ("\\" + e)[0] == '\\' && ("\\" + e)[1..] == e;
  }

  lemma ItemsStep(s: string, v: Value, r: string)
    requires ParseValue(s) == Some((v, r))
    ensures var t := SkipWs(r);
            ParseItems(s) ==
              if t == [] then None
              else if t[0] == ']' then Some(([v], t[1..]))
              else if t[0] == ',' then
                match ParseItems(SkipWs(t[1..]))
                case None => None
                case Some((vs, r2)) => Some(([v] + vs, r2))
              else None
  {
  }

  lemma MembersStep(s: string, k: string, r: string, v: Value, r2: string)
    requires s != [] && s[0] == '"' && ParseStrBody(s[1..]) == Some((k, r))
    requires SkipWs(r) != [] && SkipWs(r)[0] == ':'
    requires ParseValue(SkipWs(SkipWs(r)[1..])) == Some((v, r2))
    ensures var u := SkipWs(r2);
            ParseMembers(s) ==
              if u == [] then None
              else if u[0] == '}' then Some(([Field(k, v)], u[1..]))
              else if u[0] == ',' then
                match ParseMembers(SkipWs(u[1..]))
                case None => None
                case Some((fs, r3)) => Some(([Field(k, v)] + fs, r3))
              else None
  {
  }

  /** A separator (`,` or `:`) and a blank before a token: the parser
      stops at the separator, then skips the blank after it. */
  lemma SeparatorSkip(sep: char, t: string)
    requires !IsWs(sep)
    requires t != [] && !IsWs(t[0])
    ensures SkipWs([sep, ' '] + t) == [sep, ' '] + t
    ensures SkipWs(([sep, ' '] + t)[1..]) == t
  {
    assert ([sep, ' '] + t)[1..] == " " + t;
    SkipSpace(t);
  }

  lemma ItemsLast(s: string, v: Value, rest: string)
    requires ParseValue(s) == Some((v, "]" + rest))
    ensures ParseItems(s) == Some(([v], rest))
  {
    ItemsStep(s, v, "]" + rest);
    assert ("]" + rest)[1..] == rest;
  }

  lemma ItemsCons(s: string, v: Value, t: string, vs: seq<Value>, rest: string)
    requires t != [] && !IsWs(t[0])
    requires ParseValue(s) == Some((v, ", " + t))
    requires ParseItems(t) == Some((vs, rest))
    ensures ParseItems(s) == Some(([v] + vs, rest))
  {
    ItemsStep(s, v, ", " + t);
    SeparatorSkip(',', t);
  }

  /** A member `"k": value` whose key parses, leaving `: vt`, and whose
      value parses from `vt`, leaving `after`. */
  predicate MemberParses(s: string, k: string, vt: string, v: Value, after: string) {
    s != [] && s[0] == '"' && ParseStrBody(s[1..]) == Some((k, ": " + vt))
    && vt != [] && !IsWs(vt[0]) && ParseValue(vt) == Some((v, after))
  }

  lemma MemberStep(s: string, k: string, vt: string, v: Value, after: string)
    requires MemberParses(s, k, vt, v, after)
    ensures var u := SkipWs(after);
            ParseMembers(s) ==
              if u == [] then None
              else if u[0] == '}' then Some(([Field(k, v)], u[1..]))
              else if u[0] == ',' then
                match ParseMembers(SkipWs(u[1..]))
                case None => None
                case Some((fs, r3)) => Some(([Field(k, v)] + fs, r3))
              else None
  {
    SeparatorSkip(':', vt);
    MembersStep(s, k, ": " + vt, v, after);
  }

  lemma MembersLast(s: string, k: string, vt: string, v: Value, rest: string)
    requires MemberParses(s, k, vt, v, "}" + rest)
    ensures ParseMembers(s) == Some(([Field(k, v)], rest))
  {
    MemberStep(s, k, vt, v, "}" + rest);
    assert ("}" + rest)[1..] == rest;
  }

  lemma MembersCons(s: string, k: string, vt: string, v: Value, t: string, fs: seq<Field>, rest: string)
    requires t != [] && !IsWs(t[0])
    requires MemberParses(s, k, vt, v, ", " + t)
    requires ParseMembers(t) == Some((fs, rest))
    ensures ParseMembers(s) == Some(([Field(k, v)] + fs, rest))
  {
    MemberStep(s, k, vt, v, ", " + t);
    SeparatorSkip(',', t);
  }

  lemma ArrayOpen(body: string, vs: seq<Value>, rest: string)
    requires ParseArray(body) == Some((vs, rest))
    ensures ParseValue("[" + body) == Some((Arr(vs), rest))
  {
    assert ("[" + body)[0] == '[' && ("[" + body)[1..] == body;
  }

  lemma ObjectOpen(body: string, fs: seq<Field>, rest: string)
    requires ParseObject(body) == Some((fs, rest))
    ensures ParseValue("{" + body) == Some((Obj(fs), rest))
  {
    assert ("{" + body)[0] == '{' && ("{" + body)[1..] == body;
  }

  lemma HexDigitValue(d: nat)
    requires d < 16
    ensures HexValue(HexDigit(d)) == Some(d)
  {
  }

  lemma Hex4RoundTrip(n: nat, rest: string)
    requires n < 0x10000
    ensures ParseHex4(Hex4(n) + rest) == Some((n, rest))
  {
    var q1 := n / 16;
    var q2 := q1 / 16;
    var a, b, c, d := q2 / 16, q2 % 16, q1 % 16, n % 16;
    assert n == q1 * 16 + d;
    assert q1 == q2 * 16 + c;
    assert q2 == a * 16 + b;
    assert ((a * 16 + b) * 16 + c) * 16 + d == n;
    HexDigitValue(a);
    HexDigitValue(b);
    HexDigitValue(c);
    HexDigitValue(d);
    var s := Hex4(n) + rest;
    assert s[0] == HexDigit(a) && s[1] == HexDigit(b) && s[2] == HexDigit(c) && s[3] == HexDigit(d);
    assert s[4..] == rest;
  }

  /** The two-character escapes `\"`, `\\`, `\n`, `\r`, `\t`, `\b`, `\f`. */
  lemma ShortEscapeRoundTrip(c: char, rest: string)
    requires c == '"' || c == '\\' || c == '\n' || c == '\r' || c == '\t' || c as int == 8 || c as int == 12
    ensures ParseStrBody(EscapeChar(c) + rest) ==
            match ParseStrBody(rest)
            case None => None
            case Some((t, r)) => Some(([c] + t, r))
  {
    var e := EscapeChar(c);
    var s := e + rest;
    assert |e| == 2 && e[0] == '\\';
    assert s[0] == '\\' && s[1..] == [e[1]] + rest;
    assert ParseEscape(s[1..]) == Some((c, rest));
  }

  /** A character of the Basic Multilingual Plane written as `\uXXXX`. */
  lemma BmpEscapeRoundTrip(c: char, rest: string)
    requires !Printable(c) && c as int < 0x10000
    requires c != '\n' && c != '\r' && c != '\t' && c as int != 8 && c as int != 12
    ensures ParseStrBody(EscapeChar(c) + rest) ==
            match ParseStrBody(rest)
            case None => None
            case Some((t, r)) => Some(([c] + t, r))
  {
    var h := Hex4(c as int);
    var e := "u" + (h + rest);
    assert EscapeChar(c) == "\\u" + h;
    BmpText(EscapeChar(c), h, rest);
    assert e[0] == 'u' && e[1..] == h + rest;
    Hex4RoundTrip(c as int, rest);
    assert ParseEscape(e) == Some((c, rest));
    StrBodyEscapeStep(e, c, rest);
  }

  lemma BmpText(x: string, h: string, rest: string)
    requires x == "\\u" + h
    ensures x + rest == "\\" + ("u" + (h + rest))
  {
  }

  /** The surrogate halves of a character beyond the Basic Multilingual
      Plane, and how they recombine. */
  lemma SurrogateHalves(c: char)
    requires c as int >= 0x10000
    ensures 0x10000 + (HighSurrogate(c) - 0xD800) * 0x400 + (LowSurrogate(c) - 0xDC00) == c as int
  {
  }

  /** `\uHIGH\uLOW` is read as the one character the pair encodes; `s`
      starts after the first backslash. */
  lemma PairParse(hi: nat, lo: nat, rest: string)
    requires 0xD800 <= hi < 0xDC00 && 0xDC00 <= lo < 0xE000
    requires 0x10000 + (hi - 0xD800) * 0x400 + (lo - 0xDC00) <= 0x10FFFF
    ensures ParseEscape("u" + (Hex4(hi) + ("\\u" + (Hex4(lo) + rest))))
            == Some(((0x10000 + (hi - 0xD800) * 0x400 + (lo - 0xDC00)) as char, rest))
  {
    var h, l := Hex4(hi), Hex4(lo);
    var tail := "\\u" + (l + rest);
    var s := "u" + (h + tail);
    assert s[0] == 'u' && s[1..] == h + tail;
    Hex4RoundTrip(hi, tail);
    assert ParseHex4(s[1..]) == Some((hi, tail));
    assert tail[0] == '\\' && tail[1] == 'u' && tail[2..] == l + rest;
    Hex4RoundTrip(lo, rest);
    assert ParseHex4(tail[2..]) == Some((lo, rest));
  }

  lemma PairText(x: string, h: string, l: string, rest: string)
    requires x == "\\u" + h + "\\u" + l
    ensures x + rest == "\\" + ("u" + (h + ("\\u" + (l + rest))))
  {
  }

  /** A character beyond the Basic Multilingual Plane written as a
      surrogate pair `\uD8xx\uDCxx`. */
  lemma PairEscapeRoundTrip(c: char, rest: string)
    requires c as int >= 0x10000
    ensures ParseStrBody(EscapeChar(c) + rest) ==
            match ParseStrBody(rest)
            case None => None
            case Some((t, r)) => Some(([c] + t, r))
  {
    var hi, lo := HighSurrogate(c), LowSurrogate(c);
    SurrogateHalves(c);
    var h, l := Hex4(hi), Hex4(lo);
    var e := "u" + (h + ("\\u" + (l + rest)));
    PairParse(hi, lo, rest);
    PairText(EscapeChar(c), h, l, rest);
    StrBodyEscapeStep(e, c, rest);
  }

  /** One escaped character is read back as that character. */
  lemma EscapeCharRoundTrip(c: char, rest: string)
    ensures ParseStrBody(EscapeChar(c) + rest) ==
            match ParseStrBody(rest)
            case None => None
            case Some((t, r)) => Some(([c] + t, r))
  {
    if c == '"' || c == '\\' || c == '\n' || c == '\r' || c == '\t' || c as int == 8 || c as int == 12 {
      ShortEscapeRoundTrip(c, rest);
    } else if Printable(c) {
      var s := EscapeChar(c) + rest;
      assert s[0] == c && s[1..] == rest;
    } else if c as int < 0x10000 {
      BmpEscapeRoundTrip(c, rest);
    } else {
      PairEscapeRoundTrip(c, rest);
    }
  }

  lemma {:induction false} EscapeRoundTrip(s: string, rest: string)
    ensures ParseStrBody(Escape(s) + "\"" + rest) == Some((s, rest))
    decreases |s|
  {
    if s == [] {
      assert Escape(s) + "\"" + rest == "\"" + rest;
    } else {
      assert Escape(s) + "\"" + rest == EscapeChar(s[0]) + (Escape(s[1..]) + "\"" + rest);
      EscapeCharRoundTrip(s[0], Escape(s[1..]) + "\"" + rest);
      EscapeRoundTrip(s[1..], rest);
      assert [s[0]] + s[1..] == s;
    }
  }

  lemma {:induction false} NatTextValue(n: nat)
    ensures DigitsValue(NatText(n)) == n
    ensures NatText(n)[0] == '0' <==> n == 0
    decreases n
  {
    if n >= 10 {
      var t := NatText(n);
      assert t[..|t| - 1] == NatText(n / 10);
      NatTextValue(n / 10);
    }
  }

  /** The digit run of `NatText(n) + rest` is exactly `NatText(n)`. */
  lemma DigitRunOfText(n: nat, rest: string)
    requires rest == [] || !IsDigit(rest[0])
    ensures DigitRun(NatText(n) + rest) == |NatText(n)|
  {
    var t := NatText(n) + rest;
    var m := |NatText(n)|;
    assert forall j :: 0 <= j < m ==> t[j] == NatText(n)[j];
    assert m == |t| || t[m] == rest[0];
  }

  /** The unsigned part of a number: `0` alone, or a run of digits not
      starting with `0`, read back as `n`. */
  lemma NatTextParse(n: nat, rest: string)
    requires rest == [] || !IsDigit(rest[0])
    ensures var t := NatText(n) + rest;
            t != [] && IsDigit(t[0])
            && (t[0] == '0' ==> n == 0 && t[1..] == rest)
            && (t[0] != '0' ==> DigitsValue(t[..DigitRun(t)]) == n && t[DigitRun(t)..] == rest)
  {
    var d := NatText(n);
    var t := d + rest;
    NatTextValue(n);
    DigitRunOfText(n, rest);
    assert t[0] == d[0];
    assert t[..|d|] == d && t[|d|..] == rest;
    if n == 0 {
      assert d == "0";
    }
  }

  lemma NumberRoundTrip(i: int, rest: string)
    requires rest == [] || !IsDigit(rest[0])
    ensures ParseNumber(IntText(i) + rest) == Some((i, rest))
  {
    var n := if i < 0 then -i else i;
    var t := NatText(n) + rest;
    NatTextParse(n, rest);
    if i < 0 {
      var s := IntText(i) + rest;
      assert s == "-" + t;
      assert s[0] == '-' && s[1..] == t;
    } else {
      assert IntText(i) + rest == t;
    }
  }

  lemma LiteralRoundTrip(v: Value, rest: string)
    requires v.Null? || v.Bool?
    ensures ParseValue(Encode(v) + rest) == Some((v, rest))
  {
    var s := Encode(v) + rest;
    if v.Null? {
      assert s[..4] == "null" && s[4..] == rest;
    } else if v.b {
      assert s[..4] == "true" && s[4..] == rest;
    } else {
      assert s[..5] == "false" && s[5..] == rest;
    }
  }

  lemma IntRoundTrip(i: int, rest: string)
    requires rest == [] || !IsDigit(rest[0])
    ensures ParseValue(Encode(Int(i)) + rest) == Some((Int(i), rest))
  {
    var s := Encode(Int(i)) + rest;
    NumberRoundTrip(i, rest);
    assert s[0] == IntText(i)[0];
    assert s[0] == '-' || IsDigit(s[0]);
    assert !("null" <= s) && !("true" <= s) && !("false" <= s);
  }

  lemma StrRoundTrip(t: string, rest: string)
    ensures ParseValue(Encode(Str(t)) + rest) == Some((Str(t), rest))
  {
    var s := Encode(Str(t)) + rest;
    assert s[0] == '"';
    assert s[1..] == Escape(t) + "\"" + rest;
    EscapeRoundTrip(t, rest);
  }

  /** Parsing an encoded value gives it back and stops right after it. */
  lemma {:induction false} ValueRoundTrip(v: Value, rest: string)
    requires rest == [] || !IsDigit(rest[0])
    ensures ParseValue(Encode(v) + rest) == Some((v, rest))
    decreases v, 2
  {
    match v
    case Null => LiteralRoundTrip(v, rest);
    case Bool(_) => LiteralRoundTrip(v, rest);
    case Int(i) => IntRoundTrip(i, rest);
    case Str(t) => StrRoundTrip(t, rest);
    case Arr(items) => ArrRoundTrip(items, rest);
    case Obj(fields) => ObjRoundTrip(fields, rest);
  }

  lemma {:induction false} ArrRoundTrip(items: seq<Value>, rest: string)
    ensures ParseValue(Encode(Arr(items)) + rest) == Some((Arr(items), rest))
    decreases items, 1
  {
    var body := EncodeItems(items) + "]" + rest;
    assert Encode(Arr(items)) + rest == "[" + body;
    if items == [] {
      assert body == "]" + rest;
      assert body[1..] == rest;
    } else {
      ItemsRoundTrip(items, rest);
    }
    ArrayOpen(body, items, rest);
  }

  lemma {:induction false} ObjRoundTrip(fields: seq<Field>, rest: string)
    ensures ParseValue(Encode(Obj(fields)) + rest) == Some((Obj(fields), rest))
    decreases fields, 1
  {
    var body := EncodeFields(fields) + "}" + rest;
    assert Encode(Obj(fields)) + rest == "{" + body;
    if fields == [] {
      assert body == "}" + rest;
      assert body[1..] == rest;
    } else {
      FieldsRoundTrip(fields, rest);
    }
    ObjectOpen(body, fields, rest);
  }

  lemma {:induction false} ItemsRoundTrip(items: seq<Value>, rest: string)
    requires items != []
    ensures ParseItems(EncodeItems(items) + "]" + rest) == Some((items, rest))
    decreases items, 0
  {
    var s := EncodeItems(items) + "]" + rest;
    var x := items[0];
    if |items| == 1 {
      assert s == Encode(x) + ("]" + rest);
      ValueRoundTrip(x, "]" + rest);
      ItemsLast(s, x, rest);
      assert [x] == items;
    } else {
      var t := EncodeItems(items[1..]) + "]" + rest;
      JoinedThenClosed(EncodeItems(items), Encode(x), EncodeItems(items[1..]), ']', rest);
      ValueRoundTrip(x, ", " + t);
      ItemsRoundTrip(items[1..], rest);
      ItemsCons(s, x, t, items[1..], rest);
      assert [x] + items[1..] == items;
    }
  }

  /** The encoded members of an object, split after the first one. */
  lemma FieldsTextLast(f: Field, rest: string)
    ensures EncodeFields([f]) + "}" + rest == EncodeField(f) + ("}" + rest)
  {
    assert EncodeFields([f]) == EncodeField(f);
  }

  lemma FieldsTextCons(fields: seq<Field>, rest: string)
    requires |fields| > 1
    ensures EncodeFields(fields) + "}" + rest
            == EncodeField(fields[0]) + (", " + (EncodeFields(fields[1..]) + "}" + rest))
  {
    JoinedThenClosed(EncodeFields(fields), EncodeField(fields[0]), EncodeFields(fields[1..]), '}', rest);
  }

  /** `a, b` followed by a closing bracket and more text, regrouped after `a`. */
  lemma JoinedThenClosed(x: string, a: string, b: string, close: char, rest: string)
    requires x == a + ", " + b
    ensures x + [close] + rest == a + (", " + (b + [close] + rest))
  {
  }

  /** An encoded member followed by `after` parses as that member. */
  lemma MemberRoundTrip(f: Field, after: string)
    requires after == [] || !IsDigit(after[0])
    ensures MemberParses(EncodeField(f) + after, f.key, Encode(f.val) + after, f.val, after)
  {
    var e := Encode(f.val);
    var vt := e + after;
    var body := Escape(f.key) + "\"" + (": " + vt);
    MemberText(EncodeField(f), Escape(f.key), e, after);
    EscapeRoundTrip(f.key, ": " + vt);
    assert vt[0] == e[0];
    ValueRoundTrip(f.val, after);
  }

  /** An encoded member followed by more text, regrouped around its key. */
  lemma MemberText(x: string, k: string, e: string, after: string)
    requires x == "\"" + k + "\"" + ": " + e
    ensures var s := x + after;
            s != [] && s[0] == '"' && s[1..] == k + "\"" + (": " + (e + after))
  {
    var s := x + after;
    assert s == "\"" + (k + "\"" + (": " + (e + after)));
  }

  lemma {:induction false} FieldsRoundTrip(fields: seq<Field>, rest: string)
    requires fields != []
    ensures ParseMembers(EncodeFields(fields) + "}" + rest) == Some((fields, rest))
    decreases fields, 0
  {
    var f := fields[0];
    assert f in fields;
    var s := EncodeFields(fields) + "}" + rest;
    if |fields| == 1 {
      assert fields == [f];
      FieldsTextLast(f, rest);
      MemberRoundTrip(f, "}" + rest);
      MembersLast(s, f.key, Encode(f.val) + ("}" + rest), f.val, rest);
      assert [Field(f.key, f.val)] == fields;
    } else {
      var t := EncodeFields(fields[1..]) + "}" + rest;
      FieldsTextCons(fields, rest);
      MemberRoundTrip(f, ", " + t);
      FieldsRoundTrip(fields[1..], rest);
      MembersCons(s, f.key, Encode(f.val) + (", " + t), f.val, t, fields[1..], rest);
      assert [Field(f.key, f.val)] + fields[1..] == fields;
    }
  }

  /** `json.loads(json.dumps(v)) == v`. */
  lemma DecodeEncode(v: Value)
    ensures Decode(Encode(v)) == Some(v)
  {
    ValueRoundTrip(v, "");
    assert Encode(v) + "" == Encode(v);
  }

  /** The byte form round-trips too: the document is ASCII, so decoding it
      as text changes nothing. */
  lemma DecodeEncodeBytes(v: Value)
    ensures DecodeBytes(EncodeBytes(v)) == Some(v)
  {
    var s := Encode(v);
    EncodePrintable(v);
    AsciiRoundTrip(s);
    DecodeEncode(v);
  }
}
