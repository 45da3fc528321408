/**
 The printer: `stringify` without a replacer, on values that are trees.
 */
module Json5Print {
  import opened CodeUnits
  import opened Json5
  import opened Options

  // ------------------------------------------------------------------ numerals

  function DecimalText(n: nat): (s: Str)
    ensures |s| >= 1
  {
    if n < 10 then [0x30 + n] else DecimalText(n / 10) + [0x30 + n % 10]
  }

  function IntText(n: int): Str {
    if n < 0 then [MINUS] + DecimalText(-n) else DecimalText(n)
  }

  function HexDigit(v: nat): Unit
    requires v < 16
  {
    if v < 10 then 0x30 + v else 0x61 + v - 10
  }

  /** `n.toString(16)` */
  function HexText(n: nat): Str {
    if n < 16 then [HexDigit(n)] else HexText(n / 16) + [HexDigit(n % 16)]
  }

  // ------------------------------------------------------------------- strings

  /** The characters that are never printed as themselves. */
  predicate Escaped(c: Unit) {
    || c == BACKSLASH || c == QUOTE
    || c <= 0x1F || 0x7F <= c <= 0x9F || c == 0xAD || 0x600 <= c <= 0x604 || c == 0x70F
    || c == 0x17B4 || c == 0x17B5 || 0x200C <= c <= 0x200F || 0x2028 <= c <= 0x202F
    || 0x2060 <= c <= 0x206F || c == 0xFEFF || c >= 0xFFF0
  }

  /** The escape of one character: the short form if it has one, else four hexadecimal digits. */
  function Escape(c: Unit): Str {
    if c == 0x08 then [BACKSLASH, 0x62]
    else if c == 0x09 then [BACKSLASH, 0x74]
    else if c == LF then [BACKSLASH, 0x6E]
    else if c == 0x0C then [BACKSLASH, 0x66]
    else if c == CR then [BACKSLASH, 0x72]
    else if c == QUOTE then [BACKSLASH, QUOTE]
    else if c == BACKSLASH then [BACKSLASH, BACKSLASH]
    else
      var padded := [ZERO, ZERO, ZERO, ZERO] + HexText(c);
      [BACKSLASH, LOWER_U] + padded[|padded| - 4..]
  }

  function EscapeAll(s: Str): Str {
    if s == [] then []
    else (if Escaped(s[0]) then Escape(s[0]) else [s[0]]) + EscapeAll(s[1..])
  }

  function Quote(s: Str): Str {
    if exists i :: 0 <= i < |s| && Escaped(s[i]) then [QUOTE] + EscapeAll(s) + [QUOTE]
    else [QUOTE] + s + [QUOTE]
  }

  // --------------------------------------------------------------- property keys

  predicate IsWord(w: Str) {
    w != [] && IsWordStart(w[0]) && forall i :: 1 <= i < |w| ==> IsWordChar(w[i])
  }

  predicate IsLineEnd(c: Unit) { c == LF || c == CR || c == 0x2028 || c == 0x2029 }

  /** The test of the printer's `".*?"` pattern: two quotation marks in one line. */
  predicate HasQuotedPart(s: Str) {
    exists i, j :: 0 <= i < j < |s| && s[i] == QUOTE && s[j] == QUOTE && forall k :: i < k < j ==> !IsLineEnd(s[k])
  }

  function KeyText(w: Str): Str {
    var n := if IsWord(w) then w else Quote(w);
    if HasQuotedPart(n) then n else [QUOTE] + n + [QUOTE]
  }

  // ---------------------------------------------------------------------- values

  const VALUE_OF: Str := [0x76, 0x61, 0x6C, 0x75, 0x65, 0x4F, 0x66]
  const HAS_OWN_PROPERTY: Str :=
    [0x68, 0x61, 0x73, 0x4F, 0x77, 0x6E, 0x50, 0x72, 0x6F, 0x70, 0x65, 0x72, 0x74, 0x79]

  /** The printer calls these two on every object, so an own property of that name is a TypeError. */
  predicate HidesMethod(entries: seq<Member>) {
    exists i :: 0 <= i < |entries| && (entries[i].key == VALUE_OF || entries[i].key == HAS_OWN_PROPERTY)
  }

  function Times(s: Str, n: nat): Str {
    if n == 0 then [] else s + Times(s, n - 1)
  }

  /** The line break and indentation in front of something at a depth; at most ten characters a level. */
  function Indent(p: Str, depth: nat, noNewLine: bool): Str {
    if p == [] then []
    else (if noNewLine then [] else [LF]) + Times(if |p| > 10 then p[..10] else p, depth)
  }

  /** No number in the value needs the host to print it. */
  predicate HostFree(v: Json) {
    match v
    case JHost(_, _) => false
    case JArray(items) => forall i :: 0 <= i < |items| ==> HostFree(items[i])
    case JObject(entries) => forall i :: 0 <= i < |entries| ==> HostFree(entries[i].value)
    case _ => true
  }

  /** The text of a value inside `depth` others; `None` is a TypeError. */
  function Print(v: Json, depth: nat, p: Str): Option<Str>
    requires HostFree(v)
    decreases v, 1
  {
    match v
    case JNull => Some(NULL)
    case JBool(b) => Some(if b then TRUE else FALSE)
    case JInt(n) => Some(IntText(n))
    case JBoxed(sign, text) => Some(sign + text)
    case JInfinity(_) => Some(NULL)
    case JNaN => Some(NULL)
    case JString(s) => Some(Quote(s))
    case JArray(items) =>
      var body := PrintItems(items, depth + 1, p);
      if body.None? then None
      else Some([OPEN_BRACKET] + body.value
                + (if items != [] then Indent(p, depth, true) else []) + [CLOSE_BRACKET])
    case JObject(entries) =>
      if HidesMethod(entries) then None
      else
        var body := PrintMembers(entries, depth + 1, p);
        if body.None? then None
        else if body.value == [] then Some([OPEN_BRACE, CLOSE_BRACE])
        else Some([OPEN_BRACE] + body.value[..|body.value| - 1] + Indent(p, depth, false) + [CLOSE_BRACE])
  }

  /** The items of an array, separated by commas; with an indent the last one ends its line. */
  function PrintItems(items: seq<Json>, depth: nat, p: Str): Option<Str>
    requires forall i :: 0 <= i < |items| ==> HostFree(items[i])
    decreases items, 0
  {
    if items == [] then Some([])
    else
      var item, rest := Print(items[0], depth, p), PrintItems(items[1..], depth, p);
      if item.None? || rest.None? then None
      else
        var mark := if |items| > 1 then [COMMA] else if p != [] then [LF] else [];
        Some(Indent(p, depth, false) + item.value + mark + rest.value)
  }

  /** The members of an object, each followed by a comma. */
  function PrintMembers(entries: seq<Member>, depth: nat, p: Str): Option<Str>
    requires forall i :: 0 <= i < |entries| ==> HostFree(entries[i].value)
    decreases entries, 0
  {
    if entries == [] then Some([])
    else
      var value, rest := Print(entries[0].value, depth, p), PrintMembers(entries[1..], depth, p);
      if value.None? || rest.None? then None
      else
        var gap := if p != [] then [0x20] else [];
        Some(Indent(p, depth, false) + KeyText(entries[0].key) + [COLON] + gap + value.value + [COMMA] + rest.value)
  }

  /** `stringify(v, null, indent)` with the indent as a string. */
  function Stringify(v: Json, indent: Str): Option<Str>
    requires HostFree(v)
  {
    Print(v, 0, indent)
  }
}
