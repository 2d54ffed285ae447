/** The part of JSON that the frontend's session store puts through `JSON.stringify`
    and `JSON.parse`: a document that is either a scalar or a flat object whose
    members are scalars. Text is compact (no white space), as `JSON.stringify`
    writes it, and numbers are integers. */
module Json {
  import opened Wrappers
  import Decimal

  datatype Value = Null | Bool(b: bool) | Number(n: int) | Str(s: string)

  type Member = (string, Value)

  /** What `JSON.parse` returns for a document of this model. */
  datatype Document = Scalar(value: Value) | Object(members: seq<Member>)

  /** A JavaScript object never has two properties with the same name. */
  predicate DistinctKeys(ms: seq<Member>) {
    forall i, j :: 0 <= i < j < |ms| ==> ms[i].0 != ms[j].0
  }

  /** JavaScript truthiness of a parsed document: objects are truthy; `null`, `false`,
      `0` and the empty string are not. */
  predicate Truthy(d: Document) {
    match d
    case Object(_) => true
    case Scalar(Null) => false
    case Scalar(Bool(b)) => b
    case Scalar(Number(n)) => n != 0
    case Scalar(Str(s)) => s != ""
  }

  /** Property access `d.key`: `None` stands for `undefined`. `JSON.parse` keeps the
      last of several members with the same name; a scalar has no such property. */
  function Property(d: Document, key: string): (r: Option<Value>)
    ensures r.Some? ==> d.Object?
  {
    match d
    case Scalar(_) => None
    case Object(ms) => Lookup(ms, key)
  }

  function Lookup(ms: seq<Member>, key: string): (r: Option<Value>)
    ensures r.Some? <==> exists i :: 0 <= i < |ms| && ms[i].0 == key
    ensures r.Some? ==> exists i :: 0 <= i < |ms| && ms[i] == (key, r.value)
  {
    if ms == [] then None
    else if ms[|ms| - 1].0 == key then Some(ms[|ms| - 1].1)
    else
      var r := Lookup(ms[..|ms| - 1], key);
      assert forall i :: 0 <= i < |ms| - 1 ==> ms[..|ms| - 1][i] == ms[i];
      r
  }

  // ---------------------------------------------------------------------------
  // JSON.stringify

  function HexDigit(d: nat): (c: char)
    requires d < 16
  {
    if d < 10 then (48 + d) as char else (87 + d) as char
  }

  /** One character as `JSON.stringify` writes it inside a string literal: the two-character
      escapes for quote, backslash, backspace, tab, new line, form feed and carriage return,
      `\u00xx` (lower-case hex) for the other control characters, and every other character
      as itself. */
  function EscapeChar(c: char): (e: string)
    ensures e != []
  {
    if c == '"' then "\\\""
    else if c == '\\' then "\\\\"
    else if c == 8 as char then "\\b"
    else if c == '\t' then "\\t"
    else if c == '\n' then "\\n"
    else if c == 12 as char then "\\f"
    else if c == '\r' then "\\r"
    else if c < ' ' then "\\u00" + [HexDigit(c as int / 16), HexDigit(c as int % 16)]
    else [c]
  }

  function Escape(s: string): string {
    if s == [] then "" else EscapeChar(s[0]) + Escape(s[1..])
  }

  function Quote(s: string): string {
    "\"" + Escape(s) + "\""
  }

  function StringifyValue(v: Value): (t: string)
    ensures t != []
  {
    match v
    case Null => "null"
    case Bool(b) => if b then "true" else "false"
    case Number(n) => Decimal.IntToString(n)
    case Str(s) => Quote(s)
  }

  function StringifyMembers(ms: seq<Member>): string {
    if ms == [] then ""
    else
      var first := Quote(ms[0].0) + ":" + StringifyValue(ms[0].1);
      if |ms| == 1 then first else first + "," + StringifyMembers(ms[1..])
  }

  /** `JSON.stringify(d)`, members in insertion order. */
  function Stringify(d: Document): string {
    match d
    case Scalar(v) => StringifyValue(v)
    case Object(ms) => "{" + StringifyMembers(ms) + "}"
  }

  // ---------------------------------------------------------------------------
  // JSON.parse; None is a SyntaxError (or a document outside this model)

  predicate IsHexDigit(c: char) {
    '0' <= c <= '9' || 'a' <= c <= 'f' || 'A' <= c <= 'F'
  }

  function HexValue(c: char): (d: nat)
    requires IsHexDigit(c)
    ensures d < 16
  {
    if c <= '9' then c as int - 48 else if c <= 'F' then c as int - 55 else c as int - 87
  }

  /** The escape after a backslash: the character it stands for and the rest of the text.
      A `\u` escape naming a surrogate is not a character of this model. */
  function ReadEscape(s: string): (r: Option<(char, string)>)
    ensures r.Some? ==> |r.value.1| < |s|
  {
    if s == [] then None
    else if s[0] == '"' then Some(('"', s[1..]))
    else if s[0] == '\\' then Some(('\\', s[1..]))
    else if s[0] == '/' then Some(('/', s[1..]))
    else if s[0] == 'b' then Some((8 as char, s[1..]))
    else if s[0] == 'f' then Some((12 as char, s[1..]))
    else if s[0] == 'n' then Some(('\n', s[1..]))
    else if s[0] == 'r' then Some(('\r', s[1..]))
    else if s[0] == 't' then Some(('\t', s[1..]))
    else if s[0] == 'u' && |s| >= 5 && IsHexDigit(s[1]) && IsHexDigit(s[2]) && IsHexDigit(s[3]) && IsHexDigit(s[4]) then
      var code := ((HexValue(s[1]) * 16 + HexValue(s[2])) * 16 + HexValue(s[3])) * 16 + HexValue(s[4]);
      if 0xD800 <= code < 0xE000 then None else Some((code as char, s[5..]))
    else None
  }

  /** The string read so far with `c` in front of it. */
  function Consed(c: char, r: Option<(string, string)>): Option<(string, string)> {
    match r
    case None => None
    case Some((t, after)) => Some(([c] + t, after))
  }

  /** The body of a string literal, after its opening quote: the string and the text after
      the closing quote. Raw control characters are a syntax error. */
  function ReadString(s: string): (r: Option<(string, string)>)
    ensures r.Some? ==> |r.value.1| < |s|
    decreases |s|
  {
    if s == [] then None
    else if s[0] == '"' then Some(([], s[1..]))
    else if s[0] == '\\' then
      match ReadEscape(s[1..])
      case None => None
      case Some((c, rest)) => Consed(c, ReadString(rest))
    else if s[0] < ' ' then None
    else Consed(s[0], ReadString(s[1..]))
  }

  /** Length of the run of digits that starts `s`. */
  function DigitRun(s: string): (n: nat)
    ensures n <= |s|
    ensures n < |s| ==> !Decimal.IsDigit(s[n])
  {
    if s == [] || !Decimal.IsDigit(s[0]) then 0 else 1 + DigitRun(s[1..])
  }

  /** An integer: an optional minus sign, then `0` or a numeral without leading zero.
      A fraction or an exponent is outside this model. */
  function ReadNumber(s: string): (r: Option<(int, string)>)
    ensures r.Some? ==> |r.value.1| < |s|
  {
    var neg := |s| > 0 && s[0] == '-';
    ReadDigits(if neg then s[1..] else s, neg)
  }

  /** The numeral after the optional minus sign. */
  function ReadDigits(t: string, neg: bool): (r: Option<(int, string)>)
    ensures r.Some? ==> |r.value.1| < |t|
  {
    DigitRunDigits(t);
    ReadNumeral(t, DigitRun(t), neg)
  }

  /** The number whose numeral is the first `n` characters of `t`, all digits: none when
      they are empty, have a leading zero or run on into a fraction or an exponent. */
  function ReadNumeral(t: string, n: nat, neg: bool): (r: Option<(int, string)>)
    requires n <= |t| && Decimal.AllDigits(t[..n])
    ensures r.Some? ==> |r.value.1| < |t|
  {
    if n == 0 || (t[0] == '0' && n > 1) then None
    else if n < |t| && (t[n] == '.' || t[n] == 'e' || t[n] == 'E') then None
    else
      var m := Decimal.DigitsToNat(t[..n]);
      Some((if neg then -(m as int) else m, t[n..]))
  }

  function ReadValue(s: string): (r: Option<(Value, string)>)
    ensures r.Some? ==> |r.value.1| < |s|
  {
    if |s| >= 4 && s[..4] == "null" then Some((Null, s[4..]))
    else if |s| >= 4 && s[..4] == "true" then Some((Bool(true), s[4..]))
    else if |s| >= 5 && s[..5] == "false" then Some((Bool(false), s[5..]))
    else if |s| > 0 && s[0] == '"' then
      match ReadString(s[1..])
      case None => None
      case Some((t, rest)) => Some((Str(t), rest))
    else
      match ReadNumber(s)
      case None => None
      case Some((n, rest)) => Some((Number(n), rest))
  }

  /** One member: a string key, a colon and a value. */
  function ReadMember(s: string): (r: Option<(Member, string)>)
    ensures r.Some? ==> |r.value.1| < |s|
  {
    if s == [] || s[0] != '"' then None
    else
      var key := ReadString(s[1..]);
      if key.None? || key.value.1 == [] || key.value.1[0] != ':' then None
      else
        var val := ReadValue(key.value.1[1..]);
        if val.None? then None else Some(((key.value.0, val.value.0), val.value.1))
  }

  /** One or more members up to and including the closing brace. */
  function ReadMembers(s: string): (r: Option<(seq<Member>, string)>)
    ensures r.Some? ==> |r.value.1| < |s|
    decreases |s|
  {
    var m := ReadMember(s);
    if m.None? || m.value.1 == [] then None
    else if m.value.1[0] == '}' then Some(([m.value.0], m.value.1[1..]))
    else if m.value.1[0] == ',' then
      var more := ReadMembers(m.value.1[1..]);
      if more.None? then None else Some(([m.value.0] + more.value.0, more.value.1))
    else None
  }

  /** `JSON.parse(s)`. */
  function Parse(s: string): (r: Option<Document>)
  {
    if s != [] && s[0] == '{' then
      if |s| >= 2 && s[1] == '}' then (if |s| == 2 then Some(Object([])) else None)
      else
        match ReadMembers(s[1..])
        case Some((ms, rest)) => if rest == [] then Some(Object(ms)) else None
        case None => None
    else
      match ReadValue(s)
      case Some((v, rest)) => if rest == [] then Some(Scalar(v)) else None
      case None => None
  }

  // ---------------------------------------------------------------------------
  // Round trip

  lemma EscapeCharRead(c: char, rest: string)
    ensures ReadString(EscapeChar(c) + rest) == Consed(c, ReadString(rest))
  {
    var s := EscapeChar(c) + rest;
    if c == '"' || c == '\\' || c == 8 as char || c == '\t' || c == '\n' || c == 12 as char || c == '\r' {
      var e := EscapeChar(c);
      assert |e| == 2 && e[0] == '\\';
      assert s[0] == '\\' && s[1..] == [e[1]] + rest;
      ShortEscapeRead(c, e[1], rest);
      BackslashStep(s, c, rest);
    } else if c < ' ' {
      var hi, lo := c as int / 16, c as int % 16;
      assert s == "\\" + ("u00" + [HexDigit(hi), HexDigit(lo)] + rest);
      UnicodeEscapeRead(c, rest);
      BackslashStep(s, c, rest);
    } else {
      assert s[0] == c && s[1..] == rest;
      PlainStep(s, c, rest);
    }
  }

  /** The letter after the backslash of a two-character escape gives the character back. */
  lemma ShortEscapeRead(c: char, letter: char, rest: string)
    requires c == '"' || c == '\\' || c == 8 as char || c == '\t' || c == '\n' || c == 12 as char || c == '\r'
    requires letter == EscapeChar(c)[1]
    ensures ReadEscape([letter] + rest) == Some((c, rest))
  {
    assert ([letter] + rest)[1..] == rest;
  }

  /** The four hex digits of a `\u00xx` escape give the control character back. */
  lemma UnicodeEscapeRead(c: char, rest: string)
    requires c < ' '
    ensures ReadEscape("u00" + [HexDigit(c as int / 16), HexDigit(c as int % 16)] + rest) == Some((c, rest))
  {
    var hi, lo := c as int / 16, c as int % 16;
    var u := "u00" + [HexDigit(hi), HexDigit(lo)] + rest;
    assert u[0] == 'u' && u[1] == '0' && u[2] == '0' && u[3] == HexDigit(hi) && u[4] == HexDigit(lo);
    assert HexValue(HexDigit(hi)) == hi && HexValue(HexDigit(lo)) == lo;
    assert u[5..] == rest;
  }

  /** A backslash escape is read, then the rest of the string. */
  lemma BackslashStep(s: string, c: char, after: string)
    requires s != [] && s[0] == '\\' && ReadEscape(s[1..]) == Some((c, after))
    ensures ReadString(s) == Consed(c, ReadString(after))
  {
  }

  /** A character that is neither a quote, a backslash nor a control character stands
      for itself. */
  lemma PlainStep(s: string, c: char, rest: string)
    requires s != [] && s[0] == c && c != '"' && c != '\\' && c >= ' ' && s[1..] == rest
    ensures ReadString(s) == Consed(c, ReadString(rest))
  {
  }

  lemma {:induction false} EscapeRead(x: string, rest: string)
    ensures ReadString(Escape(x) + "\"" + rest) == Some((x, rest))
    decreases |x|
  {
    if x == [] {
      assert Escape(x) + "\"" + rest == "\"" + rest;
    } else {
      var after := Escape(x[1..]) + "\"" + rest;
      EscapeCons(x, rest);
      EscapeCharRead(x[0], after);
      EscapeRead(x[1..], rest);
      ConsedRead(x, rest);
    }
  }

  lemma EscapeCons(x: string, rest: string)
    requires x != []
    ensures Escape(x) + "\"" + rest == EscapeChar(x[0]) + (Escape(x[1..]) + "\"" + rest)
  {
  }

  lemma ConsedRead(x: string, rest: string)
    requires x != []
    ensures Consed(x[0], Some((x[1..], rest))) == Some((x, rest))
  {
    assert [x[0]] + x[1..] == x;
  }

  lemma QuoteRead(x: string, rest: string)
    ensures ReadValue(Quote(x) + rest) == Some((Str(x), rest))
  {
    var s := Quote(x) + rest;
    assert s[1..] == Escape(x) + "\"" + rest;
    EscapeRead(x, rest);
    assert s[0] == '"';
    if |s| >= 4 {
      assert s[..4][0] == '"';
    }
    if |s| >= 5 {
      assert s[..5][0] == '"';
    }
  }

  /** The text that may follow a value inside a document of this model. */
  predicate EndsValue(rest: string) {
    rest == [] || rest[0] == ',' || rest[0] == '}'
  }

  lemma {:induction false} DigitRunOfNumeral(ds: string, rest: string)
    requires Decimal.AllDigits(ds)
    requires rest == [] || !Decimal.IsDigit(rest[0])
    ensures DigitRun(ds + rest) == |ds|
    decreases |ds|
  {
    if ds == [] {
      assert ds + rest == rest;
    } else {
      var tail := ds[1..];
      assert Decimal.AllDigits(tail) by {
        forall i | 0 <= i < |tail| ensures Decimal.IsDigit(tail[i]) {
          assert tail[i] == ds[i + 1];
        }
      }
      DigitRunOfNumeral(tail, rest);
      var s := ds + rest;
      assert s[0] == ds[0] && Decimal.IsDigit(s[0]);
      assert s[1..] == tail + rest;
      DigitRunCons(s, tail + rest);
    }
  }

  /** A digit in front adds one to the run. */
  lemma DigitRunCons(s: string, t: string)
    requires s != [] && Decimal.IsDigit(s[0]) && s[1..] == t
    ensures DigitRun(s) == 1 + DigitRun(t)
  {
  }

  lemma NatRead(n: nat, rest: string)
    requires EndsValue(rest)
    ensures var ds := Decimal.NatToString(n);
            DigitRun(ds + rest) == |ds| && (ds + rest)[..|ds|] == ds && (ds + rest)[|ds|..] == rest
            && Decimal.DigitsToNat(ds) == n
  {
    var ds := Decimal.NatToString(n);
    DigitRunOfNumeral(ds, rest);
    assert (ds + rest)[..|ds|] == ds && (ds + rest)[|ds|..] == rest;
    Decimal.NatToStringValue(n);
  }

  /** ReadDigits on a numeral followed by the text after a value. */
  lemma ReadDigitsStep(neg: bool, ds: string, rest: string, m: nat)
    requires ds != [] && (ds[0] == '0' ==> |ds| == 1)
    requires DigitRun(ds + rest) == |ds| && (ds + rest)[..|ds|] == ds && (ds + rest)[|ds|..] == rest
    requires EndsValue(rest)
    requires Decimal.AllDigits(ds) && Decimal.DigitsToNat(ds) == m
    ensures ReadDigits(ds + rest, neg) == Some((if neg then -(m as int) else m, rest))
  {
    var t := ds + rest;
    assert t[0] == ds[0];
    assert |ds| < |t| ==> t[|ds|] == rest[0];
    ReadDigitsAt(t, |ds|, neg, m, rest);
  }

  /** ReadDigits once the digit run, its value and the text after it are known. */
  lemma ReadDigitsAt(t: string, n: nat, neg: bool, m: nat, rest: string)
    requires DigitRun(t) == n && n > 0 && !(t[0] == '0' && n > 1)
    requires n < |t| ==> t[n] != '.' && t[n] != 'e' && t[n] != 'E'
    requires Decimal.AllDigits(t[..n]) && Decimal.DigitsToNat(t[..n]) == m && t[n..] == rest
    ensures ReadDigits(t, neg) == Some((if neg then -(m as int) else m, rest))
  {
    NumeralAt(t, n, neg, m, rest);
  }

  lemma NumeralAt(t: string, n: nat, neg: bool, m: nat, rest: string)
    requires n <= |t| && Decimal.AllDigits(t[..n])
    requires n > 0 && !(t[0] == '0' && n > 1)
    requires n < |t| ==> t[n] != '.' && t[n] != 'e' && t[n] != 'E'
    requires Decimal.DigitsToNat(t[..n]) == m && t[n..] == rest
    ensures ReadNumeral(t, n, neg) == Some((if neg then -(m as int) else m, rest))
  {
  }

  /** The run is made of digits. */
  lemma {:induction false} DigitRunDigits(s: string)
    ensures Decimal.AllDigits(s[..DigitRun(s)])
  {
    if s != [] && Decimal.IsDigit(s[0]) {
      DigitRunDigits(s[1..]);
      assert s[..DigitRun(s)] == [s[0]] + s[1..][..DigitRun(s[1..])];
    }
  }

  /** The numeral of a natural number has no leading zero, unless it is "0". */
  lemma NoLeadingZero(m: nat)
    ensures var ds := Decimal.NatToString(m); ds[0] == '0' ==> |ds| == 1
  {
  }

  /** The numeral of a natural number read as digits, with either sign. */
  lemma NatDigitsRead(m: nat, rest: string, neg: bool)
    requires EndsValue(rest)
    ensures ReadDigits(Decimal.NatToString(m) + rest, neg) == Some((if neg then -(m as int) else m, rest))
  {
    NatRead(m, rest);
    NoLeadingZero(m);
    ReadDigitsStep(neg, Decimal.NatToString(m), rest, m);
  }

  /** ReadNumber strips the sign and hands the rest to ReadDigits. */
  lemma SignStep(s: string, t: string, neg: bool, r: Option<(int, string)>)
    requires neg <==> |s| > 0 && s[0] == '-'
    requires t == if neg then s[1..] else s
    requires ReadDigits(t, neg) == r
    ensures ReadNumber(s) == r
  {
  }

  lemma NumberReadNumber(n: int, rest: string)
    requires EndsValue(rest)
    ensures ReadNumber(Decimal.IntToString(n) + rest) == Some((n, rest))
  {
    if n < 0 {
      NegativeRead(n, rest);
    } else {
      NonNegativeRead(n, rest);
    }
  }

  lemma NegativeRead(n: int, rest: string)
    requires n < 0 && EndsValue(rest)
    ensures ReadNumber(Decimal.IntToString(n) + rest) == Some((n, rest))
  {
    var ds := Decimal.NatToString(-n);
    NatDigitsRead(-n, rest, true);
    assert Decimal.IntToString(n) == "-" + ds;
    MinusStep(ds, rest, Some((n, rest)));
  }

  /** A minus sign followed by digits: ReadNumber reads the digits as negative. */
  lemma MinusStep(ds: string, rest: string, r: Option<(int, string)>)
    requires ReadDigits(ds + rest, true) == r
    ensures ReadNumber("-" + ds + rest) == r
  {
    var s := "-" + ds + rest;
    assert s == "-" + (ds + rest);
    assert s[0] == '-' && s[1..] == ds + rest;
    SignStep(s, ds + rest, true, r);
  }

  lemma NonNegativeRead(n: int, rest: string)
    requires n >= 0 && EndsValue(rest)
    ensures ReadNumber(Decimal.IntToString(n) + rest) == Some((n, rest))
  {
    var ds := Decimal.NatToString(n);
    NatDigitsRead(n, rest, false);
    assert Decimal.IntToString(n) == ds;
    DigitStep(ds, rest, Some((n, rest)));
  }

  /** Digits with no sign: ReadNumber reads them as they are. */
  lemma DigitStep(ds: string, rest: string, r: Option<(int, string)>)
    requires ds != [] && Decimal.IsDigit(ds[0])
    requires ReadDigits(ds + rest, false) == r
    ensures ReadNumber(ds + rest) == r
  {
    var s := ds + rest;
    assert s[0] == ds[0];
    SignStep(s, s, false, r);
  }

  /** Text that starts with a sign or a digit is read as a number. */
  lemma ValueNumberStep(s: string, n: int, rest: string)
    requires s != [] && (s[0] == '-' || Decimal.IsDigit(s[0]))
    requires ReadNumber(s) == Some((n, rest))
    ensures ReadValue(s) == Some((Number(n), rest))
  {
    if |s| >= 4 {
      assert s[..4][0] == s[0];
    }
    if |s| >= 5 {
      assert s[..5][0] == s[0];
    }
  }

  lemma NumberRead(n: int, rest: string)
    requires EndsValue(rest)
    ensures ReadValue(Decimal.IntToString(n) + rest) == Some((Number(n), rest))
  {
    var s := Decimal.IntToString(n) + rest;
    NumberReadNumber(n, rest);
    var ds := Decimal.NatToString(if n < 0 then -n else n);
    assert Decimal.IsDigit(ds[0]);
    assert s[0] == '-' || s[0] == ds[0];
    ValueNumberStep(s, n, rest);
  }

  lemma ValueRead(v: Value, rest: string)
    requires EndsValue(rest)
    ensures ReadValue(StringifyValue(v) + rest) == Some((v, rest))
  {
    match v
    case Null =>
      assert (StringifyValue(v) + rest)[..4] == "null";
      assert (StringifyValue(v) + rest)[4..] == rest;
    case Bool(b) =>
      if b {
        assert (StringifyValue(v) + rest)[..4] == "true";
        assert (StringifyValue(v) + rest)[4..] == rest;
      } else {
        var t := StringifyValue(v) + rest;
        assert t[..4] == "fals";
        assert t[..5] == "false";
        assert t[5..] == rest;
      }
    case Number(n) => NumberRead(n, rest);
    case Str(x) => QuoteRead(x, rest);
  }

  lemma MemberStep(s: string, key: string, v: Value, r: string, tail: string)
    requires s != [] && s[0] == '"'
    requires ReadString(s[1..]) == Some((key, r))
    requires r != [] && r[0] == ':'
    requires ReadValue(r[1..]) == Some((v, tail))
    ensures ReadMember(s) == Some(((key, v), tail))
  {
  }

  lemma QuotedKeyRead(key: string, r: string)
    ensures var s := Quote(key) + r;
            s != [] && s[0] == '"' && ReadString(s[1..]) == Some((key, r))
  {
    var e := Escape(key);
    var s := Quote(key) + r;
    assert s == "\"" + (e + "\"" + r);
    assert s[1..] == e + "\"" + r;
    EscapeRead(key, r);
  }

  lemma ColonValueRead(v: Value, tail: string)
    requires EndsValue(tail)
    ensures var r := ":" + StringifyValue(v) + tail;
            r != [] && r[0] == ':' && ReadValue(r[1..]) == Some((v, tail))
  {
    var r := ":" + StringifyValue(v) + tail;
    assert r[1..] == StringifyValue(v) + tail;
    ValueRead(v, tail);
  }

  /** Reading back one member written by `StringifyMembers`. */
  lemma MemberRead(key: string, v: Value, tail: string)
    requires tail != [] && (tail[0] == ',' || tail[0] == '}')
    ensures ReadMember(Quote(key) + ":" + StringifyValue(v) + tail) == Some(((key, v), tail))
  {
    var q, sv := Quote(key), StringifyValue(v);
    var r := ":" + sv + tail;
    QuotedKeyRead(key, r);
    ColonValueRead(v, tail);
    Assoc(q, ":", sv, tail);
    MemberStep(q + r, key, v, r, tail);
  }

  lemma Assoc(a: string, b: string, c: string, d: string)
    ensures a + b + c + d == a + (b + c + d)
  {
  }

  lemma DropComma(x: string)
    ensures ("," + x)[1..] == x
  {
  }

  lemma Regroup(first: string, others: string, rest: string)
    ensures first + "," + others + "}" + rest == first + ("," + (others + "}" + rest))
  {
  }

  lemma StringifyMembersCons(ms: seq<Member>, rest: string)
    requires |ms| > 1
    ensures StringifyMembers(ms) + "}" + rest
            == Quote(ms[0].0) + ":" + StringifyValue(ms[0].1) + ("," + (StringifyMembers(ms[1..]) + "}" + rest))
  {
    var first, others := Quote(ms[0].0) + ":" + StringifyValue(ms[0].1), StringifyMembers(ms[1..]);
    assert StringifyMembers(ms) == first + "," + others;
    Regroup(first, others, rest);
  }

  lemma MembersReadOne(ms: seq<Member>, rest: string)
    requires |ms| == 1
    ensures ReadMembers(StringifyMembers(ms) + "}" + rest) == Some((ms, rest))
  {
    var key, v := ms[0].0, ms[0].1;
    var tail := "}" + rest;
    assert StringifyMembers(ms) + "}" + rest == Quote(key) + ":" + StringifyValue(v) + tail;
    MemberRead(key, v, tail);
    MembersStepLast(Quote(key) + ":" + StringifyValue(v) + tail, (key, v), tail);
    assert tail[1..] == rest;
    assert ms == [(key, v)];
  }

  lemma MembersStepLast(s: string, m: Member, tail: string)
    requires ReadMember(s) == Some((m, tail))
    requires tail != [] && tail[0] == '}'
    ensures ReadMembers(s) == Some(([m], tail[1..]))
  {
  }

  lemma MembersStepMore(s: string, m: Member, tail: string, more: seq<Member>, rest: string)
    requires ReadMember(s) == Some((m, tail))
    requires tail != [] && tail[0] == ','
    requires ReadMembers(tail[1..]) == Some((more, rest))
    ensures ReadMembers(s) == Some(([m] + more, rest))
  {
  }

  lemma MembersReadMore(key: string, v: Value, tail: string, more: seq<Member>, rest: string)
    requires tail != [] && tail[0] == ','
    requires ReadMembers(tail[1..]) == Some((more, rest))
    ensures ReadMembers(Quote(key) + ":" + StringifyValue(v) + tail) == Some(([(key, v)] + more, rest))
  {
    MemberRead(key, v, tail);
    MembersStepMore(Quote(key) + ":" + StringifyValue(v) + tail, (key, v), tail, more, rest);
  }

  lemma {:induction false} MembersRead(ms: seq<Member>, rest: string)
    requires ms != []
    ensures ReadMembers(StringifyMembers(ms) + "}" + rest) == Some((ms, rest))
    decreases |ms|
  {
    if |ms| == 1 {
      MembersReadOne(ms, rest);
    } else {
      MembersRead(ms[1..], rest);
      MembersReadCons(ms, rest);
    }
  }

  /** The step of MembersRead: the first member, a comma, and the others read back. */
  lemma MembersReadCons(ms: seq<Member>, rest: string)
    requires |ms| > 1
    requires ReadMembers(StringifyMembers(ms[1..]) + "}" + rest) == Some((ms[1..], rest))
    ensures ReadMembers(StringifyMembers(ms) + "}" + rest) == Some((ms, rest))
  {
    var inner := StringifyMembers(ms[1..]) + "}" + rest;
    var tail := "," + inner;
    StringifyMembersCons(ms, rest);
    DropComma(inner);
    MembersReadMore(ms[0].0, ms[0].1, tail, ms[1..], rest);
    assert [(ms[0].0, ms[0].1)] + ms[1..] == ms;
  }

  lemma ParseScalarStep(s: string, v: Value)
    requires s == [] || s[0] != '{'
    requires ReadValue(s) == Some((v, ""))
    ensures Parse(s) == Some(Scalar(v))
  {
  }

  lemma ParseObjectStep(s: string, ms: seq<Member>)
    requires |s| >= 2 && s[0] == '{' && s[1] != '}'
    requires ReadMembers(s[1..]) == Some((ms, ""))
    ensures Parse(s) == Some(Object(ms))
  {
  }

  /** `JSON.parse(JSON.stringify(d))` gives `d` back, for every document of this model. */
  lemma ParseStringify(d: Document)
    ensures Parse(Stringify(d)) == Some(d)
  {
    match d
    case Scalar(v) => ScalarRoundTrip(v);
    case Object(ms) => ObjectRoundTrip(ms);
  }

  lemma ScalarRoundTrip(v: Value)
    ensures Parse(StringifyValue(v)) == Some(Scalar(v))
  {
    var s := StringifyValue(v);
    assert s + "" == s;
    ValueRead(v, "");
    ValueNotBrace(v);
    ParseScalarStep(s, v);
  }

  /** A written value never starts with a brace. */
  lemma ValueNotBrace(v: Value)
    ensures StringifyValue(v)[0] != '{'
  {
    if v.Number? {
      var n := v.n;
      var ds := Decimal.NatToString(if n < 0 then -n else n);
      assert Decimal.IsDigit(ds[0]);
    }
  }

  lemma ObjectRoundTrip(ms: seq<Member>)
    ensures Parse("{" + StringifyMembers(ms) + "}") == Some(Object(ms))
  {
    var body := StringifyMembers(ms);
    var s := "{" + body + "}";
    if ms == [] {
      assert s == "{}";
    } else {
      assert s[1..] == body + "}" + "";
      MembersRead(ms, "");
      MembersStartWithQuote(ms);
      assert s[1] == body[0];
      ParseObjectStep(s, ms);
    }
  }

  lemma MembersStartWithQuote(ms: seq<Member>)
    requires ms != []
    ensures StringifyMembers(ms) != [] && StringifyMembers(ms)[0] == '"'
  {
    var q := Quote(ms[0].0);
    assert q[0] == '"';
  }
}
