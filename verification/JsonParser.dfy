/**
 A parser for JSON texts: sections 2 to 7 of RFC 8259, with the three constants Python's `json` adds.
 Every function takes the text still to be read and returns what is left of it.
 */
module JsonParser {
  import opened Outcomes
  import opened Numerals
  import opened PyText
  import opened Json

  predicate IsBlank(c: char) {
    c == ' ' || c == '\t' || c == '\n' || c == '\r'
  }

  function SkipBlanks(t: string): (r: string)
    ensures |r| <= |t|
  {
    if t != "" && IsBlank(t[0]) then SkipBlanks(t[1..]) else t
  }

  // ----- strings -----

  /** The character of a `\u` escape whose digits start at `t`, joining a surrogate pair. */
  function ParseUnicode(t: string): (r: Option<(char, string)>)
    ensures r.Some? ==> |r.value.1| < |t|
  {
    match ParseHex4(t)
    case None => None
    case Some(n) =>
      if 0xD800 <= n < 0xDC00 then
        if |t| >= 10 && t[4] == '\\' && t[5] == 'u' then
          match ParseHex4(t[6..])
          case Some(m) =>
            if 0xDC00 <= m < 0xE000 then
              Some(((0x10000 + (n - 0xD800) * 0x400 + (m - 0xDC00)) as char, t[10..]))
            else None
          case None => None
        else None
      else if 0xDC00 <= n < 0xE000 then None
      else Some((n as char, t[4..]))
  }

  function ParseEscape(t: string): (r: Option<(char, string)>)
    requires t != "" && t[0] == '\\'
    ensures r.Some? ==> |r.value.1| < |t|
  {
    if |t| < 2 then None
    else
      match t[1]
      case '"' => Some(('"', t[2..]))
      case '\\' => Some(('\\', t[2..]))
      case '/' => Some(('/', t[2..]))
      case 'b' => Some((8 as char, t[2..]))
      case 'f' => Some((12 as char, t[2..]))
      case 'n' => Some(('\n', t[2..]))
      case 'r' => Some(('\r', t[2..]))
      case 't' => Some(('\t', t[2..]))
      case 'u' => ParseUnicode(t[2..])
      case _ => None
  }

  /** One character of a string body. */
  function ParseChar(t: string): (r: Option<(char, string)>)
    requires t != ""
    ensures r.Some? ==> |r.value.1| < |t|
  {
    if t[0] == '\\' then ParseEscape(t)
    else if t[0] < ' ' then None
    else Some((t[0], t[1..]))
  }

  /** A string body up to and including the closing quote. */
  function ParseString(t: string): (r: Option<(string, string)>)
    ensures r.Some? ==> |r.value.1| < |t|
    decreases |t|
  {
    if t == "" then None
    else if t[0] == '"' then Some(("", t[1..]))
    else
      match ParseChar(t)
      case None => None
      case Some((c, t1)) =>
        match ParseString(t1)
        case None => None
        case Some((s, t2)) => Some(([c] + s, t2))
  }

  // ----- literals and numbers -----

  function ParseNumber(t: string): (r: Option<(Json, string)>)
    ensures r.Some? ==> |r.value.1| < |t|
  {
    match ScanNumber(t)
    case None => None
    case Some(Scanned(i, j)) =>
      if i == j then
        ScanPrefix(t);
        Some((Int(IntValue(t[..i])), t[i..]))
      else Some((Float(t[..j]), t[j..]))
  }

  lemma DigitsEndPrefix(t: string, i: nat, n: nat)
    requires i <= n <= |t| && DigitsEnd(t, i) <= n
    ensures DigitsEnd(t[..n], i) == DigitsEnd(t, i)
    decreases n - i
  {
    if i < n && IsDigit(t[i]) {
      DigitsEndPrefix(t, i + 1, n);
    }
  }

  /** The matched part of a text, scanned alone, matches entirely. */
  lemma ScanPrefix(t: string)
    requires ScanNumber(t).Some?
    ensures ScanNumber(t[..ScanNumber(t).value.end]) == ScanNumber(t)
  {
    var Scanned(i, j) := ScanNumber(t).value;
    var k := FractionEnd(t, i);
    var u := t[..j];
    var sign := if t[0] == '-' then 1 else 0;
    if t[sign] != '0' {
      DigitsEndPrefix(t, sign + 1, j);
    }
    assert IntegerEnd(u) == Some(i);
    FractionPrefix(t, i, j);
    ExponentPrefix(t, k, j);
  }

  lemma FractionPrefix(t: string, i: nat, n: nat)
    requires i <= n <= |t|
    requires ExponentEnd(t, FractionEnd(t, i)) == n
    ensures FractionEnd(t[..n], i) == FractionEnd(t, i)
  {
    if i + 1 < |t| && t[i] == '.' && IsDigit(t[i + 1]) {
      DigitsEndPrefix(t, i + 1, n);
    }
  }

  lemma ExponentPrefix(t: string, i: nat, n: nat)
    requires i <= n <= |t| && ExponentEnd(t, i) == n
    ensures ExponentEnd(t[..n], i) == n
  {
    if i < n {
      var k := if i + 1 < |t| && (t[i + 1] == '+' || t[i + 1] == '-') then i + 2 else i + 1;
      DigitsEndPrefix(t, k, n);
    }
  }

  /** A digit, or a minus sign that does not open "-Infinity". */
  predicate StartsNumber(t: string) {
    t != "" && (IsDigit(t[0]) || (t[0] == '-' && (|t| == 1 || t[1] != 'I')))
  }

  function ParseLiteral(t: string): (r: Option<(Json, string)>)
    ensures r.Some? ==> |r.value.1| < |t|
  {
    if "null" <= t then Some((Null, t[4..]))
    else if "true" <= t then Some((Bool(true), t[4..]))
    else if "false" <= t then Some((Bool(false), t[5..]))
    else if "NaN" <= t then Some((NonFinite(NaN), t[3..]))
    else if "Infinity" <= t then Some((NonFinite(PositiveInfinity), t[8..]))
    else if "-Infinity" <= t then Some((NonFinite(NegativeInfinity), t[9..]))
    else None
  }

  /** A value that holds no other values. */
  function ParseScalar(t: string): (r: Option<(Json, string)>)
    ensures r.Some? ==> |r.value.1| < |t|
  {
    if t == "" then None
    else if t[0] == '"' then
      match ParseString(t[1..])
      case None => None
      case Some((s, t1)) => Some((Str(s), t1))
    else if StartsNumber(t) then ParseNumber(t)
    else ParseLiteral(t)
  }

  // ----- values -----

  function ParseValue(t: string): (r: Option<(Json, string)>)
    ensures r.Some? ==> |r.value.1| < |t|
    decreases |t|, 0
  {
    if t != "" && t[0] == '[' then ParseArray(t[1..])
    else if t != "" && t[0] == '{' then ParseObject(t[1..])
    else ParseScalar(t)
  }

  function ParseArray(t: string): (r: Option<(Json, string)>)
    ensures r.Some? ==> |r.value.1| < |t|
    decreases |t|, 2
  {
    var u := SkipBlanks(t);
    if u != "" && u[0] == ']' then Some((Arr([]), u[1..]))
    else
      match ParseItems(u)
      case None => None
      case Some((xs, t1)) => Some((Arr(xs), t1))
  }

  function ParseItems(t: string): (r: Option<(seq<Json>, string)>)
    ensures r.Some? ==> |r.value.1| < |t|
    decreases |t|, 1
  {
    match ParseValue(t)
    case None => None
    case Some((x, t1)) =>
      var u := SkipBlanks(t1);
      if u == "" then None
      else if u[0] == ']' then Some(([x], u[1..]))
      else if u[0] == ',' then
        match ParseItems(SkipBlanks(u[1..]))
        case None => None
        case Some((xs, t2)) => Some(([x] + xs, t2))
      else None
  }

  function ParseObject(t: string): (r: Option<(Json, string)>)
    ensures r.Some? ==> |r.value.1| < |t|
    decreases |t|, 2
  {
    var u := SkipBlanks(t);
    if u != "" && u[0] == '}' then Some((Obj([]), u[1..]))
    else
      match ParseMembers(u, [])
      case None => None
      case Some((ms, t1)) => Some((Obj(ms), t1))
  }

  /** `"key" : value`. */
  function ParseMember(t: string): (r: Option<(Member, string)>)
    ensures r.Some? ==> |r.value.1| < |t|
    decreases |t|, 0
  {
    if t == "" || t[0] != '"' then None
    else
      match ParseString(t[1..])
      case None => None
      case Some((k, t1)) =>
        var u := SkipBlanks(t1);
        if u == "" || u[0] != ':' then None
        else
          match ParseValue(SkipBlanks(u[1..]))
          case None => None
          case Some((v, t2)) => Some((Member(k, v), t2))
  }

  /** The members after `acc`; a repeated key overwrites the earlier value, as in a dict. */
  function ParseMembers(t: string, acc: Dict): (r: Option<(Dict, string)>)
    ensures r.Some? ==> |r.value.1| < |t|
    decreases |t|, 1
  {
    match ParseMember(t)
    case None => None
    case Some((m, t1)) =>
      var ms := Set(acc, m.key, m.val);
      var u := SkipBlanks(t1);
      if u == "" then None
      else if u[0] == '}' then Some((ms, u[1..]))
      else if u[0] == ',' then ParseMembers(SkipBlanks(u[1..]), ms)
      else None
  }

  /** `json.loads(text)`: one value and nothing else but blanks. */
  function Parse(text: string): Option<Json> {
    match ParseValue(SkipBlanks(text))
    case Some((v, t1)) => if SkipBlanks(t1) == "" then Some(v) else None
    case None => None
  }
}
