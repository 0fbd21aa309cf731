/** The text that util/json.c writes for a tree, and a reader for JSON texts (RFC 8259) to hold it
    against.
 */
module JsonText {
  import opened Basics

  // ----- trees -----

  datatype Value =
    | Text(chars: string)
    | Number(number: int)
    | Object(members: Members)
    | Array(items: Items)

  datatype Members = NoMember | Member(name: string, value: Value, rest: Members)

  datatype Items = NoItem | Item(value: Value, rest: Items)

  // ----- the printer -----

  /** json_print_level: two spaces for each level. */
  function Indent(level: nat): string {
    if level == 0 then "" else "  " + Indent(level - 1)
  }

  predicate NeedsEscape(c: char) { c == '\\' || c == '"' }

  /** strdup_escape: a backslash before each quote and backslash, nothing else. */
  function Escape(str: string): string {
    if str == [] then [] else EscapeOne(str[0]) + Escape(str[1..])
  }

  function EscapeOne(c: char): string {
    if NeedsEscape(c) then ['\\', c] else [c]
  }

  /** json_print_value for a value whose container stands at the level before `level`. */
  function Render(v: Value, level: nat): string
    decreases v, 0
  {
    match v
    case Text(chars) => "\"" + Escape(chars) + "\""
    case Number(number) => Decimal(number)
    case Object(members) =>
      "{\n" + RenderMembers(members, level + 1) + "\n" + Indent(level) + "}"
    case Array(items) =>
      "[\n" + RenderItems(items, level + 1) + "\n" + Indent(level) + "]"
  }

  /** json_print_pair: the name is written as it is. */
  function RenderMember(name: string, value: Value, level: nat): string
    decreases value, 1
  {
    Indent(level) + "\"" + name + "\" : " + Render(value, level)
  }

  function RenderMembers(ms: Members, level: nat): string
    decreases ms, 2
  {
    match ms
    case NoMember => ""
    case Member(name, value, rest) =>
      RenderMember(name, value, level)
      + (if rest.Member? then ",\n" + RenderMembers(rest, level) else "")
  }

  function RenderItem(value: Value, level: nat): string
    decreases value, 1
  {
    Indent(level) + Render(value, level)
  }

  function RenderItems(items: Items, level: nat): string
    decreases items, 2
  {
    match items
    case NoItem => ""
    case Item(value, rest) =>
      RenderItem(value, level)
      + (if rest.Item? then ",\n" + RenderItems(rest, level) else "")
  }

  // ----- the reader -----

  predicate IsSpace(c: char) { c == ' ' || c == '\n' || c == '\t' || c == '\r' }

  predicate IsControl(c: char) { c < ' ' }

  function Skip(s: string): (r: string)
    ensures |r| <= |s|
  {
    if s != [] && IsSpace(s[0]) then Skip(s[1..]) else s
  }

  /** Section 7 of RFC 8259: the character named by a two-character escape. */
  function Unescaped(c: char): Option<char> {
    match c
    case '"' => Some('"')
    case '\\' => Some('\\')
    case '/' => Some('/')
    case 'b' => Some(8 as char)
    case 'f' => Some(12 as char)
    case 'n' => Some('\n')
    case 'r' => Some('\r')
    case 't' => Some('\t')
    case _ => None
  }

  function Hex(c: char): Option<nat> {
    if '0' <= c <= '9' then Some((c - '0') as nat)
    else if 'a' <= c <= 'f' then Some((c - 'a') as nat + 10)
    else if 'A' <= c <= 'F' then Some((c - 'A') as nat + 10)
    else None
  }

  /** The character named by four hexadecimal digits.  Halves of surrogate pairs are not read. */
  function FromHex(s: string): Option<char>
    requires |s| == 4
  {
    match (Hex(s[0]), Hex(s[1]), Hex(s[2]), Hex(s[3]))
    case (Some(a), Some(b), Some(c), Some(d)) =>
      var code := ((a * 16 + b) * 16 + c) * 16 + d;
      if 0 <= code < 0xD800 then Some(code as char)
      else if 0xE000 <= code < 0x1_0000 then Some(code as char)
      else None
    case _ => None
  }

  function Prepend(c: char, r: Option<(string, string)>): Option<(string, string)> {
    match r
    case None => None
    case Some((chars, rest)) => Some(([c] + chars, rest))
  }

  /** The characters of a string, from after the opening quote to the closing one. */
  function ReadString(s: string): (r: Option<(string, string)>)
    ensures r.Some? ==> |r.value.1| < |s|
  {
    if s == [] || IsControl(s[0]) then None
    else if s[0] == '"' then Some(("", s[1..]))
    else if s[0] != '\\' then Prepend(s[0], ReadString(s[1..]))
    else if |s| >= 6 && s[1] == 'u' then
      match FromHex(s[2..6])
      case None => None
      case Some(c) => Prepend(c, ReadString(s[6..]))
    else if |s| >= 2 then
      match Unescaped(s[1])
      case None => None
      case Some(c) => Prepend(c, ReadString(s[2..]))
    else None
  }

  /** A whole number without sign: 0, or digits that do not start with 0. */
  function ReadNatural(s: string): (r: Option<(nat, string)>)
    ensures r.Some? ==> |r.value.1| < |s|
  {
    if s == [] || !IsDigit(s[0]) then None
    else if s[0] == '0' then Some((0, s[1..]))
    else Some(ReadDigits(s[1..], (s[0] - '0') as nat))
  }

  /** A value with the text after it. */
  function ReadValue(text: string): (r: Option<(Value, string)>)
    ensures r.Some? ==> |r.value.1| < |text|
    decreases |text|, 1
  {
    var s := Skip(text);
    if s == [] then None
    else if s[0] == '"' then
      match ReadString(s[1..])
      case None => None
      case Some((chars, rest)) => Some((Text(chars), rest))
    else if s[0] == '{' then
      var inner := Skip(s[1..]);
      if inner != [] && inner[0] == '}' then Some((Object(NoMember), inner[1..])) else
      match ReadMembers(s[1..])
      case None => None
      case Some((members, rest)) => Some((Object(members), rest))
    else if s[0] == '[' then
      var inner := Skip(s[1..]);
      if inner != [] && inner[0] == ']' then Some((Array(NoItem), inner[1..])) else
      match ReadItems(s[1..])
      case None => None
      case Some((items, rest)) => Some((Array(items), rest))
    else if s[0] == '-' then
      match ReadNatural(s[1..])
      case None => None
      case Some((n, rest)) => Some((Number(0 - (n as int)), rest))
    else
      match ReadNatural(s)
      case None => None
      case Some((n, rest)) => Some((Number(n), rest))
  }

  /** One or more members and the closing brace. */
  function ReadMembers(text: string): (r: Option<(Members, string)>)
    ensures r.Some? ==> |r.value.1| < |text|
    decreases |text|, 2
  {
    var s := Skip(text);
    if s == [] || s[0] != '"' then None else
    match ReadString(s[1..])
    case None => None
    case Some((name, afterName)) =>
      var colon := Skip(afterName);
      if colon == [] || colon[0] != ':' then None else
      match ReadValue(colon[1..])
      case None => None
      case Some((value, afterValue)) =>
        var next := Skip(afterValue);
        if next == [] then None
        else if next[0] == '}' then Some((Member(name, value, NoMember), next[1..]))
        else if next[0] == ',' then
          match ReadMembers(next[1..])
          case None => None
          case Some((rest, after)) => Some((Member(name, value, rest), after))
        else None
  }

  /** One or more items and the closing bracket. */
  function ReadItems(text: string): (r: Option<(Items, string)>)
    ensures r.Some? ==> |r.value.1| < |text|
    decreases |text|, 2
  {
    match ReadValue(text)
    case None => None
    case Some((value, afterValue)) =>
      var next := Skip(afterValue);
      if next == [] then None
      else if next[0] == ']' then Some((Item(value, NoItem), next[1..]))
      else if next[0] == ',' then
        match ReadItems(next[1..])
        case None => None
        case Some((rest, after)) => Some((Item(value, rest), after))
      else None
  }

  /** A whole JSON text. */
  function Read(text: string): Option<Value> {
    match ReadValue(text)
    case None => None
    case Some((v, rest)) => if Skip(rest) == [] then Some(v) else None
  }
}
