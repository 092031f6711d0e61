/**
 `json.dumps` as the repository calls it. `Emit(v, style, depth, rest)` is the text of `v` followed by
 `rest`, so a longer text is a nest of calls and no concatenation has to be regrouped in a proof.
 */
module JsonText {
  import opened Outcomes
  import opened Numerals
  import opened PyText
  import opened Json

  /** `ensure_ascii`, and `indent=2` against compact separators. */
  datatype Style = Style(ensureAscii: bool, indented: bool)

  const CANONICAL := Style(false, false)
  const AUDIT_LINE := Style(true, false)
  const MANIFEST_FILE := Style(false, true)

  // ----- strings (section 7 of RFC 8259) -----

  function Unicode16(n: nat): (s: string)
    requires n < 0x10000
    ensures |s| == 6
  {
    "\\u" + Hex4(n)
  }

  function EscapeUnicode(c: char): (s: string)
    ensures |s| == 6 || |s| == 12
  {
    var n := c as int;
    if n < 0x10000 then Unicode16(n)
    else Unicode16(0xD800 + (n - 0x10000) / 0x400) + Unicode16(0xDC00 + (n - 0x10000) % 0x400)
  }

  function Escape(c: char, ensureAscii: bool): (s: string)
    ensures s != ""
  {
    match c
    case '"' => "\\\""
    case '\\' => "\\\\"
    case '\n' => "\\n"
    case '\r' => "\\r"
    case '\t' => "\\t"
    case _ =>
      if c as int == 8 then "\\b"
      else if c as int == 12 then "\\f"
      else if c < ' ' || (ensureAscii && !IsPrintableAscii(c)) then EscapeUnicode(c)
      else [c]
  }

  function EmitChars(s: string, ensureAscii: bool, rest: string): string {
    if s == "" then rest else Escape(s[0], ensureAscii) + EmitChars(s[1..], ensureAscii, rest)
  }

  function EmitString(s: string, ensureAscii: bool, rest: string): (t: string)
    ensures t != "" && t[0] == '"'
  {
    "\"" + EmitChars(s, ensureAscii, "\"" + rest)
  }

  // ----- layout -----

  function Spaces(n: nat): string {
    if n == 0 then "" else " " + Spaces(n - 1)
  }

  /** The line break and indentation of an indented text; nothing in a compact one. */
  function Gap(st: Style, depth: nat): string {
    if st.indented then "\n" + Spaces(2 * depth) else ""
  }

  function Colon(st: Style): string {
    if st.indented then ": " else ":"
  }

  function SpecialText(k: Special): string {
    match k
    case NaN => "NaN"
    case PositiveInfinity => "Infinity"
    case NegativeInfinity => "-Infinity"
  }

  // ----- values -----

  /** The text of a value that is neither a string nor holds other values. */
  function AtomText(v: Json): string
    requires !v.Str? && !v.Arr? && !v.Obj?
  {
    match v
    case Null => "null"
    case Bool(b) => if b then "true" else "false"
    case Int(n) => IntText(n)
    case Float(lexeme) => lexeme
    case NonFinite(k) => SpecialText(k)
  }

  /** `v` printed at this depth, then `rest`. */
  function Emit(v: Json, st: Style, depth: nat, rest: string): string
    decreases v, 0
  {
    match v
    case Str(s) => EmitString(s, st.ensureAscii, rest)
    case Arr(items) =>
      if items == [] then "[]" + rest
      else "[" + (Gap(st, depth + 1) + EmitItems(items, st, depth + 1, Gap(st, depth) + ("]" + rest)))
    case Obj(members) =>
      if members == [] then "{}" + rest
      else "{" + (Gap(st, depth + 1) + EmitMembers(members, st, depth + 1, Gap(st, depth) + ("}" + rest)))
    case _ => AtomText(v) + rest
  }

  function EmitItems(items: seq<Json>, st: Style, depth: nat, rest: string): string
    requires items != []
    decreases items, 1
  {
    Emit(items[0], st, depth, AfterItem(items, st, depth, rest))
  }

  /** What follows the first item: the other items after a comma, or the end of the array. */
  function AfterItem(items: seq<Json>, st: Style, depth: nat, rest: string): string
    requires items != []
    decreases items, 0
  {
    if |items| == 1 then rest
    else "," + (Gap(st, depth) + EmitItems(items[1..], st, depth, rest))
  }

  function EmitMembers(ms: Dict, st: Style, depth: nat, rest: string): string
    requires ms != []
    decreases ms, 1
  {
    EmitString(ms[0].key, st.ensureAscii,
               Colon(st) + Emit(ms[0].val, st, depth, AfterMember(ms, st, depth, rest)))
  }

  function AfterMember(ms: Dict, st: Style, depth: nat, rest: string): string
    requires ms != []
    decreases ms, 0
  {
    if |ms| == 1 then rest
    else "," + (Gap(st, depth) + EmitMembers(ms[1..], st, depth, rest))
  }

  /** `json.dumps(v, sort_keys=True, ...)` with `allow_nan` left on. */
  function SortedText(v: Json, st: Style): string {
    Emit(SortKeys(v), st, 0, "")
  }

  // ----- allow_nan=False -----

  /** No NaN or infinity anywhere: what `allow_nan=False` demands. */
  predicate Finite(v: Json)
    decreases v
  {
    match v
    case NonFinite(_) => false
    case Arr(items) => forall i :: 0 <= i < |items| ==> Finite(items[i])
    case Obj(members) => forall i :: 0 <= i < |members| ==> Finite(members[i].val)
    case _ => true
  }

  datatype TextError = OutOfRangeFloat

  /** `json.dumps(v, sort_keys=True, separators=(",", ":"), ensure_ascii=False, allow_nan=False)`. */
  function CanonicalText(v: Json): Result<string, TextError> {
    if Finite(v) then Ok(SortedText(v, CANONICAL)) else Err(OutOfRangeFloat)
  }
}
