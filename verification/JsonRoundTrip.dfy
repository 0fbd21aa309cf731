/** Reading back what util/json.c prints.  The printed text of a tree is read as that same tree
    exactly when the tree is clean: names are written without escaping, so they must hold neither
    quote nor backslash, and no control character is escaped anywhere.
 */
module JsonRoundTrip {
  import opened Basics
  import opened JsonText

  // ----- the condition -----

  predicate CleanText(chars: string) {
    forall c | c in chars :: !IsControl(c)
  }

  predicate CleanName(name: string) {
    forall c | c in name :: !IsControl(c) && !NeedsEscape(c)
  }

  predicate Clean(v: Value) {
    match v
    case Text(chars) => CleanText(chars)
    case Number(_) => true
    case Object(members) => CleanMembers(members)
    case Array(items) => CleanItems(items)
  }

  predicate CleanMembers(ms: Members) {
    ms.Member? ==> CleanName(ms.name) && Clean(ms.value) && CleanMembers(ms.rest)
  }

  predicate CleanItems(items: Items) {
    items.Item? ==> Clean(items.value) && CleanItems(items.rest)
  }

  // ----- strings -----

  lemma CleanTextSplits(c: char, tail: string)
    ensures CleanText([c] + tail) <==> !IsControl(c) && CleanText(tail)
  {
    var chars := [c] + tail;
    assert chars[0] == c && forall i | 0 <= i < |tail| :: chars[i + 1] == tail[i];
  }

  /** One character, as it is printed. */
  lemma EscapedCharacterReads(c: char, s: string)
    ensures ReadString(EscapeOne(c) + s) == if IsControl(c) then None else Prepend(c, ReadString(s))
  {
    if NeedsEscape(c) {
      assert (['\\', c] + s)[2..] == s;
    } else {
      assert ([c] + s)[1..] == s;
    }
  }

  /** An escaped text is read back, up to its closing quote, when it holds no control character. */
  lemma {:induction false} EscapedReadsBack(chars: string, rest: string)
    ensures ReadString(Escape(chars) + "\"" + rest)
         == if CleanText(chars) then Some((chars, rest)) else None
  {
    var s := Escape(chars) + "\"" + rest;
    if chars == [] {
      assert s[1..] == rest;
    } else {
      var c, tail := chars[0], chars[1..];
      var s' := Escape(tail) + "\"" + rest;
      EscapedReadsBack(tail, rest);
      CleanTextSplits(c, tail);
      EscapedCharacterReads(c, s');
      assert [c] + tail == chars;
      hide CleanText, EscapeOne, ReadString;
      assert s == EscapeOne(c) + s';
    }
  }

  lemma {:induction false} CleanNameReadsBack(name: string, rest: string)
    requires CleanName(name)
    ensures ReadString(name + "\"" + rest) == Some((name, rest))
  {
    var s := name + "\"" + rest;
    if name == [] {
      assert s[1..] == rest;
    } else {
      assert s[0] == name[0];
      assert s[1..] == name[1..] + "\"" + rest;
      CleanNameReadsBack(name[1..], rest);
      assert [name[0]] + name[1..] == name;
    }
  }

  /** What a reader can make of a text whose first quote is at `m`: it stops there, with fewer
      characters than it passed if there was an escape among them, or it has passed that quote as
      an escaped one, early in the result. */
  ghost predicate StringFrom(s: string, m: nat, r: Option<(string, string)>)
    requires m < |s|
  {
    r.Some? ==>
      var chars := r.value.0;
      || (exists j :: 0 <= j < m && j < |chars| && chars[j] == '"')
      || (|chars| < m && '\\' in s[..m])
      || (chars == s[..m] && '\\' !in s[..m] && CleanText(chars))
  }

  lemma {:induction false} ReadStringFrom(s: string, m: nat)
    requires m < |s| && s[m] == '"' && '"' !in s[..m]
    ensures StringFrom(s, m, ReadString(s))
    decreases |s|, 1
  {
    if m > 0 && ReadString(s).Some? {
      assert s[0] in s[..m] && s[0] != '"';
      if s[0] != '\\' {
        StringStep(s, m, 1, s[0]);
      } else if |s| >= 6 && s[1] == 'u' {
        var hex := s[2..6];
        assert Hex(hex[0]).Some? && Hex(hex[1]).Some? && Hex(hex[2]).Some? && Hex(hex[3]).Some?;
        assert s[2] == hex[0] && s[3] == hex[1] && s[4] == hex[2] && s[5] == hex[3];
        assert m >= 6;
        StringStep(s, m, 6, FromHex(hex).value);
      } else if m == 1 {
        var chars := ReadString(s).value.0;
        assert chars[0] == '"';
      } else {
        StringStep(s, m, 2, Unescaped(s[1]).value);
      }
    }
  }

  /** One character read from the `n` at the front, and the rest as `ReadStringFrom` says. */
  lemma {:induction false} StringStep(s: string, m: nat, n: nat, c: char)
    requires 1 <= n <= m < |s| && s[m] == '"' && '"' !in s[..m]
    requires ReadString(s) == Prepend(c, ReadString(s[n..])) && ReadString(s).Some?
    requires if n == 1 then c == s[0] && c != '\\' && !IsControl(c) else s[0] == '\\'
    ensures StringFrom(s, m, ReadString(s))
    decreases |s|, 0
  {
    hide ReadString, IsControl;
    var s', m' := s[n..], m - n;
    assert s'[..m'] == s[n..m];
    assert s[..m] == s[..n] + s'[..m'];
    ReadStringFrom(s', m');
    var chars, chars' := ReadString(s).value.0, ReadString(s').value.0;
    assert chars == [c] + chars';
    if j :| 0 <= j < m' && j < |chars'| && chars'[j] == '"' {
      assert chars[j + 1] == '"';
    } else if n == 1 {
      if chars' == s'[..m'] && '\\' !in s'[..m'] && CleanText(chars') {
        assert chars == s[..m];
      }
    } else {
      assert s[0] in s[..m];
    }
  }

  /** A name that is not clean is never read back as itself. */
  lemma DirtyNameIsLost(name: string, rest: string)
    requires !CleanName(name)
    ensures var r := ReadString(name + "\"" + rest);
      r.Some? ==> r.value.0 != name
  {
    var s := name + "\"" + rest;
    var m := FirstQuote(s, |name|);
    ReadStringFrom(s, m);
    assert s[..|name|] == name;
    if m == |name| {
      assert s[..m] == name;
      assert '"' !in name;
    } else {
      assert |s[..m]| < |name|;
    }
    forall j | 0 <= j < m
      ensures name[j] != '"'
    {
      assert s[..m][j] == s[j] == name[j];
    }
  }

  function FirstQuote(s: string, bound: nat): (m: nat)
    requires bound < |s| && s[bound] == '"'
    ensures m <= bound && s[m] == '"' && '"' !in s[..m]
    decreases bound
  {
    if s[0] == '"' then 0 else
    var m := FirstQuote(s[1..], bound - 1);
    assert s[..m + 1] == [s[0]] + s[1..][..m];
    m + 1
  }

  // ----- numbers -----

  /** What follows a printed number must not continue it. */
  predicate EndsNumber(rest: string) {
    rest == [] || !IsDigit(rest[0])
  }

  lemma NaturalReadsBack(n: nat, rest: string)
    requires EndsNumber(rest)
    ensures ReadNatural(Digits(n) + rest) == Some((n, rest))
  {
    DigitsShape(n);
    if n == 0 {
      assert (Digits(n) + rest)[1..] == rest;
    } else {
      ReadDigitsFrom(n, rest);
    }
  }

  lemma NumberReadsBack(n: int, rest: string)
    requires EndsNumber(rest)
    ensures ReadValue(Decimal(n) + rest) == Some((Number(n), rest))
  {
    hide ReadNatural, ReadString, ReadMembers, ReadItems, Digits;
    var s := Decimal(n) + rest;
    if n < 0 {
      NaturalReadsBack(-n, rest);
      assert s[0] == '-' && s[1..] == Digits(-n) + rest;
    } else {
      DigitsShape(n);
      NaturalReadsBack(n, rest);
      assert s[0] == Digits(n)[0];
    }
  }

  // ----- layout -----

  lemma {:induction false} SkipIndent(level: nat, rest: string)
    ensures Skip(Indent(level) + rest) == Skip(rest)
  {
    if level == 0 {
      assert Indent(0) + rest == rest;
    } else {
      var s := Indent(level) + rest;
      var s' := Indent(level - 1) + rest;
      assert s[0] == ' ' && s[1] == ' ' && s[1..][1..] == s';
      assert Skip(s) == Skip(s[1..]) == Skip(s');
      SkipIndent(level - 1, rest);
    }
  }

  /** Reading skips the indentation before a value. */
  lemma ReadPastIndent(level: nat, s: string)
    ensures ReadValue(Indent(level) + s) == ReadValue(s)
  {
    SkipIndent(level, s);
  }

  /** The end of an object or array: a new line, the indentation and the closing mark. */
  function Closing(level: nat, mark: char, rest: string): string {
    "\n" + (Indent(level) + ([mark] + rest))
  }

  lemma ClosingReads(level: nat, mark: char, rest: string)
    requires mark == '}' || mark == ']'
    ensures Skip(Closing(level, mark, rest)) == [mark] + rest
    ensures EndsNumber(Closing(level, mark, rest))
  {
    var s := Closing(level, mark, rest);
    assert s[1..] == Indent(level) + ([mark] + rest);
    SkipIndent(level, [mark] + rest);
  }

  // ----- values -----

  /** The result of reading: the value and the rest when it is clean, another value if any when it
      is not. */
  ghost predicate ReadsBack(v: Value, rest: string, r: Option<(Value, string)>) {
    if Clean(v) then r == Some((v, rest)) else r.Some? ==> r.value.0 != v
  }

  lemma TextReadsBack(chars: string, rest: string)
    ensures ReadsBack(Text(chars), rest, ReadValue("\"" + Escape(chars) + "\"" + rest))
  {
    var s := "\"" + Escape(chars) + "\"" + rest;
    assert s[1..] == Escape(chars) + "\"" + rest;
    EscapedReadsBack(chars, rest);
  }

  lemma NameReads(name: string, level: nat, after: string)
    ensures var s := Skip(Indent(level) + ("\"" + (name + "\"" + after)));
      s != [] && s[0] == '"' && s[1..] == name + "\"" + after
  {
    SkipIndent(level, "\"" + (name + "\"" + after));
  }

  lemma ColonReads(after: string)
    ensures var s := Skip(" : " + after);
      s != [] && s[0] == ':' && ReadValue(s[1..]) == ReadValue(after)
  {
    var s := " : " + after;
    assert s[1..] == ": " + after;
    assert s[1..][1..] == " " + after;
    ReadPastSpace(' ', after);
  }

  lemma ReadPastSpace(c: char, s: string)
    requires IsSpace(c)
    ensures ReadValue([c] + s) == ReadValue(s)
    ensures ReadMembers([c] + s) == ReadMembers(s)
    ensures ReadItems([c] + s) == ReadItems(s)
  {
    assert ([c] + s)[1..] == s;
    assert Skip([c] + s) == Skip(s);
  }

  lemma CommaReads(after: string)
    ensures var s := Skip(",\n" + after);
      && s == ",\n" + after
      && ReadMembers(s[1..]) == ReadMembers(after) && ReadItems(s[1..]) == ReadItems(after)
  {
    assert (",\n" + after)[1..] == "\n" + after;
    ReadPastSpace('\n', after);
  }

  lemma SkipAfterOpening(mark: char, inner: string)
    requires !IsSpace(mark)
    ensures var s := [mark] + "\n" + inner;
      Skip(s) == s && s[1..] == "\n" + inner && Skip(s[1..]) == Skip(inner)
  {
    var s := [mark] + "\n" + inner;
    assert s[1..] == "\n" + inner;
    assert s[1..][1..] == inner;
  }

  /** An object opens, and what follows does not close it at once. */
  lemma ObjectOpens(inner: string)
    requires Skip(inner) != [] && Skip(inner)[0] != '}'
    ensures ReadValue("{\n" + inner) == match ReadMembers(inner)
                                        case None => None
                                        case Some((ms, rest)) => Some((Object(ms), rest))
  {
    hide ReadMembers, ReadItems, ReadString, ReadNatural, Skip;
    SkipAfterOpening('{', inner);
    ReadPastSpace('\n', inner);
    assert "{\n" + inner == ['{'] + "\n" + inner;
  }

  lemma ArrayOpens(inner: string)
    requires Skip(inner) != [] && Skip(inner)[0] != ']'
    ensures ReadValue("[\n" + inner) == match ReadItems(inner)
                                        case None => None
                                        case Some((items, rest)) => Some((Array(items), rest))
  {
    hide ReadMembers, ReadItems, ReadString, ReadNatural, Skip;
    SkipAfterOpening('[', inner);
    ReadPastSpace('\n', inner);
    assert "[\n" + inner == ['['] + "\n" + inner;
  }

  lemma EmptyReads(level: nat, rest: string)
    ensures ReadValue("{\n" + Closing(level, '}', rest)) == Some((Object(NoMember), rest))
    ensures ReadValue("[\n" + Closing(level, ']', rest)) == Some((Array(NoItem), rest))
  {
    hide Closing, ReadMembers, ReadItems;
    ClosingReads(level, '}', rest);
    ClosingReads(level, ']', rest);
    SkipAfterOpening('{', Closing(level, '}', rest));
    SkipAfterOpening('[', Closing(level, ']', rest));
  }

  /** What follows a value inside an object or array: the next one after a comma, or the end. */
  function After(more: bool, next: string, level: nat, mark: char, rest: string): string {
    if more then ",\n" + next else Closing(level, mark, rest)
  }

  lemma AfterEndsNumber(more: bool, next: string, level: nat, mark: char, rest: string)
    ensures EndsNumber(After(more, next, level, mark, rest))
  {
  }

  /** The first character of a value never closes an array. */
  lemma ValueOpens(v: Value, level: nat)
    ensures Render(v, level) != []
    ensures !IsSpace(Render(v, level)[0])
    ensures Render(v, level)[0] != ']'
  {
    if v.Number? {
      DigitsShape(if v.number < 0 then -v.number else v.number);
    }
  }

  lemma {:induction false} ValueReadsBack(v: Value, level: nat, rest: string)
    requires EndsNumber(rest)
    ensures ReadsBack(v, rest, ReadValue(Render(v, level) + rest))
    decreases v, 0
  {
    hide ReadValue, ReadMembers, ReadItems, Skip, Indent, Escape, Decimal;
    assert RenderMembers(NoMember, level + 1) == "" && RenderItems(NoItem, level + 1) == "";
    match v
    case Text(chars) =>
      TextReadsBack(chars, rest);
    case Number(n) =>
      NumberReadsBack(n, rest);
    case Object(members) =>
      if members.NoMember? {
        assert Render(v, level) + rest == "{\n" + Closing(level, '}', rest);
        EmptyReads(level, rest);
      } else {
        var inner := RenderMembers(members, level + 1) + Closing(level, '}', rest);
        assert Render(v, level) + rest == "{\n" + inner;
        MembersReadBack(members, level + 1, level, rest);
        ObjectOpens(inner);
      }
    case Array(items) =>
      if items.NoItem? {
        assert Render(v, level) + rest == "[\n" + Closing(level, ']', rest);
        EmptyReads(level, rest);
      } else {
        var inner := RenderItems(items, level + 1) + Closing(level, ']', rest);
        assert Render(v, level) + rest == "[\n" + inner;
        ItemsReadBack(items, level + 1, level, rest);
        ArrayOpens(inner);
      }
  }

  lemma MembersText(ms: Members, level: nat, outer: nat, rest: string)
    requires ms.Member?
    ensures var next := RenderMembers(ms.rest, level) + Closing(outer, '}', rest);
      var value := Render(ms.value, level) + After(ms.rest.Member?, next, outer, '}', rest);
      RenderMembers(ms, level) + Closing(outer, '}', rest)
        == Indent(level) + ("\"" + (ms.name + "\"" + (" : " + value)))
  {
    hide Indent, Render, Closing;
  }

  lemma {:induction false} MembersReadBack(ms: Members, level: nat, outer: nat, rest: string)
    requires ms.Member?
    ensures var text := RenderMembers(ms, level) + Closing(outer, '}', rest);
      && (if CleanMembers(ms) then ReadMembers(text) == Some((ms, rest))
          else ReadMembers(text).Some? ==> ReadMembers(text).value.0 != ms)
      && Skip(text) != [] && Skip(text)[0] == '"'
    decreases ms, 1
  {
    hide ReadValue, Skip, Indent, Escape, Decimal, ReadString, Render, RenderMembers, Closing, Clean, CleanName;
    var next := RenderMembers(ms.rest, level) + Closing(outer, '}', rest);
    var after := After(ms.rest.Member?, next, outer, '}', rest);
    var value := Render(ms.value, level) + after;
    MembersText(ms, level, outer, rest);
    NameReads(ms.name, level, " : " + value);
    if CleanName(ms.name) {
      CleanNameReadsBack(ms.name, " : " + value);
      ColonReads(value);
      AfterEndsNumber(ms.rest.Member?, next, outer, '}', rest);
      ValueReadsBack(ms.value, level, after);
      if ms.rest.Member? {
        CommaReads(next);
        MembersReadBack(ms.rest, level, outer, rest);
      } else {
        assert CleanMembers(ms.rest);
        ClosingReads(outer, '}', rest);
      }
    } else {
      DirtyNameIsLost(ms.name, " : " + value);
    }
  }

  lemma {:induction false} ItemsReadBack(items: Items, level: nat, outer: nat, rest: string)
    requires items.Item?
    ensures var text := RenderItems(items, level) + Closing(outer, ']', rest);
      && (if CleanItems(items) then ReadItems(text) == Some((items, rest))
          else ReadItems(text).Some? ==> ReadItems(text).value.0 != items)
      && Skip(text) != [] && Skip(text)[0] != ']'
    decreases items, 1
  {
    hide ReadValue, Skip, Indent, Escape, Decimal, ReadString, Render, Closing, Clean, CleanName;
    var next := RenderItems(items.rest, level) + Closing(outer, ']', rest);
    var after := After(items.rest.Item?, next, outer, ']', rest);
    var value := Render(items.value, level) + after;
    assert RenderItems(items, level) + Closing(outer, ']', rest) == Indent(level) + value;
    ReadPastIndent(level, value);
    SkipIndent(level, value);
    ValueOpens(items.value, level);
    SkipNothing(value);
    AfterEndsNumber(items.rest.Item?, next, outer, ']', rest);
    ValueReadsBack(items.value, level, after);
    if items.rest.Item? {
      CommaReads(next);
      ItemsReadBack(items.rest, level, outer, rest);
    } else {
      assert CleanItems(items.rest);
      ClosingReads(outer, ']', rest);
    }
  }

  lemma SkipNothing(s: string)
    requires s != [] && !IsSpace(s[0])
    ensures Skip(s) == s
  {
  }

  /** The printed text of a tree, at any level, is read back as that tree if and only if its names
      hold no quote, backslash or control character and its texts no control character. */
  lemma ReadsBackIffClean(v: Value, level: nat)
    ensures Read(Render(v, level)) == Some(v) <==> Clean(v)
  {
    ValueReadsBack(v, level, "");
    assert Render(v, level) + "" == Render(v, level);
  }
}
