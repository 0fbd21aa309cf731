/** The printed text of a tree, line by line: each line with the number of containers around what it
    starts, which is half the number of blanks in front of it.
 */
module JsonLines {
  import opened Basics
  import opened JsonText

  datatype Line = Line(depth: nat, text: string)

  function Blanks(n: nat): (s: string)
    ensures |s| == n && forall i | 0 <= i < n :: s[i] == ' '
  {
    if n == 0 then "" else Blanks(n - 1) + " "
  }

  /** Lines as one text, each behind its blanks, with a line feed between two. */
  function Joined(lines: seq<Line>): string {
    if lines == [] then ""
    else Blanks(2 * lines[0].depth) + lines[0].text
         + if |lines| == 1 then "" else "\n" + Joined(lines[1..])
  }

  /** The lines of a value with `depth` containers around it; `front` is on the first of them and `back`
      at the end of the last.  An empty container has an empty line. */
  function ValueLines(v: Value, depth: nat, front: string, back: string): (lines: seq<Line>)
    ensures lines != []
    decreases v, 0
  {
    match v
    case Text(chars) => [Line(depth, front + "\"" + Escape(chars) + "\"" + back)]
    case Number(number) => [Line(depth, front + Decimal(number) + back)]
    case Object(members) =>
      [Line(depth, front + "{")] + MemberLines(members, depth + 1) + [Line(depth, "}" + back)]
    case Array(items) =>
      [Line(depth, front + "[")] + ItemLines(items, depth + 1) + [Line(depth, "]" + back)]
  }

  function MemberLines(ms: Members, depth: nat): (lines: seq<Line>)
    ensures lines != []
    decreases ms, 1
  {
    match ms
    case NoMember => [Line(0, "")]
    case Member(name, value, rest) =>
      var front := "\"" + name + "\" : ";
      if rest.NoMember? then ValueLines(value, depth, front, "")
      else ValueLines(value, depth, front, ",") + MemberLines(rest, depth)
  }

  function ItemLines(items: Items, depth: nat): (lines: seq<Line>)
    ensures lines != []
    decreases items, 1
  {
    match items
    case NoItem => [Line(0, "")]
    case Item(value, rest) =>
      if rest.NoItem? then ValueLines(value, depth, "", "")
      else ValueLines(value, depth, "", ",") + ItemLines(rest, depth)
  }

  lemma {:induction false} IndentIsBlanks(level: nat)
    ensures Indent(level) == Blanks(2 * level)
  {
    if level > 0 {
      IndentIsBlanks(level - 1);
      assert Indent(level) == "  " + Indent(level - 1);
    }
  }

  lemma {:induction false} JoinedOfConcat(a: seq<Line>, b: seq<Line>)
    requires a != [] && b != []
    ensures Joined(a + b) == Joined(a) + ("\n" + Joined(b))
  {
    hide Blanks;
    assert (a + b)[0] == a[0] && (a + b)[1..] == a[1..] + b;
    if |a| > 1 {
      JoinedOfConcat(a[1..], b);
    } else {
      assert a[1..] + b == b;
    }
  }

  lemma JoinedOfOne(line: Line)
    ensures Joined([line]) == Blanks(2 * line.depth) + line.text
  {
  }

  /** A container's lines around those of its contents. */
  lemma JoinedAround(first: Line, inner: seq<Line>, last: Line)
    requires inner != []
    ensures Joined([first] + inner + [last])
         == Blanks(2 * first.depth) + (first.text + ("\n" + (Joined(inner) + ("\n" + (Blanks(2 * last.depth) + last.text)))))
  {
    hide Joined, Blanks;
    JoinedOfConcat([first] + inner, [last]);
    JoinedOfConcat([first], inner);
    JoinedOfOne(first);
    JoinedOfOne(last);
  }

  /** The text printed for a value is its lines. */
  lemma {:induction false} RenderIsLines(v: Value, depth: nat, front: string, back: string)
    ensures Joined(ValueLines(v, depth, front, back)) == Blanks(2 * depth) + (front + (Render(v, depth) + back))
    decreases v, 0
  {
    hide Render, Body, Blanks, Joined, RenderMembers, RenderItems, ValueLines, MemberLines, ItemLines;
    match v
    case Object(members) =>
      MembersAreLines(members, depth + 1);
      ObjectLines(members, depth, front, back);
      ContainerText(v, depth);
    case Array(items) =>
      ItemsAreLines(items, depth + 1);
      ArrayLines(items, depth, front, back);
      ContainerText(v, depth);
    case _ =>
      ScalarLine(v, depth, front, back);
  }

  lemma ContainerText(v: Value, depth: nat)
    ensures v.Object? ==> Render(v, depth) == Body("{", RenderMembers(v.members, depth + 1), depth, "}")
    ensures v.Array? ==> Render(v, depth) == Body("[", RenderItems(v.items, depth + 1), depth, "]")
  {
    hide RenderMembers, RenderItems, Indent, Blanks;
    IndentIsBlanks(depth);
  }

  lemma ScalarLine(v: Value, depth: nat, front: string, back: string)
    requires v.Text? || v.Number?
    ensures Joined(ValueLines(v, depth, front, back)) == Blanks(2 * depth) + (front + (Render(v, depth) + back))
  {
    hide Escape, Decimal, Blanks, Joined;
    match v
    case Text(chars) =>
      var line := front + "\"" + Escape(chars) + "\"" + back;
      assert line == front + (Render(v, depth) + back);
      JoinedOfOne(Line(depth, line));
    case Number(number) =>
      var line := front + Decimal(number) + back;
      assert line == front + (Render(v, depth) + back);
      JoinedOfOne(Line(depth, line));
  }

  lemma ObjectLines(members: Members, depth: nat, front: string, back: string)
    ensures Joined(ValueLines(Object(members), depth, front, back))
         == Blanks(2 * depth) + (front + (Body("{", Joined(MemberLines(members, depth + 1)), depth, "}") + back))
  {
    hide Body, Joined, Blanks, MemberLines;
    Surrounded(depth, front, "{", MemberLines(members, depth + 1), "}", back);
  }

  lemma ArrayLines(items: Items, depth: nat, front: string, back: string)
    ensures Joined(ValueLines(Array(items), depth, front, back))
         == Blanks(2 * depth) + (front + (Body("[", Joined(ItemLines(items, depth + 1)), depth, "]") + back))
  {
    hide Body, Joined, Blanks, ItemLines;
    Surrounded(depth, front, "[", ItemLines(items, depth + 1), "]", back);
  }

  /** A container from its opening to its closing mark. */
  function Body(open: string, inner: string, depth: nat, close: string): string {
    open + "\n" + inner + "\n" + Blanks(2 * depth) + close
  }

  lemma Surrounded(depth: nat, front: string, open: string, inner: seq<Line>, close: string, back: string)
    requires inner != []
    ensures Joined([Line(depth, front + open)] + inner + [Line(depth, close + back)])
         == Blanks(2 * depth) + (front + (Body(open, Joined(inner), depth, close) + back))
  {
    hide Joined, Blanks;
    JoinedAround(Line(depth, front + open), inner, Line(depth, close + back));
    Regrouped(Blanks(2 * depth), front, open, Joined(inner), close, back, "\n");
  }

  lemma Regrouped(blanks: string, front: string, open: string, inner: string, close: string, back: string,
                  feed: string)
    ensures blanks + (front + open + (feed + (inner + (feed + (blanks + (close + back))))))
         == blanks + (front + (open + feed + inner + feed + blanks + close + back))
  {
    assert front + open + (feed + (inner + (feed + (blanks + (close + back)))))
        == front + (open + feed + inner + feed + blanks + close + back);
  }

  lemma {:induction false} MembersAreLines(ms: Members, depth: nat)
    ensures Joined(MemberLines(ms, depth)) == RenderMembers(ms, depth)
    decreases ms, 1
  {
    hide Indent, Blanks, Joined, Render, ValueLines;
    IndentIsBlanks(depth);
    match ms
    case NoMember =>
      NoLine();
    case Member(name, value, rest) =>
      var front := "\"" + name + "\" : ";
      RenderIsLines(value, depth, front, if rest.NoMember? then "" else ",");
      if rest.Member? {
        MembersAreLines(rest, depth);
        JoinedOfConcat(ValueLines(value, depth, front, ","), MemberLines(rest, depth));
      }
  }

  lemma NoLine()
    ensures Joined([Line(0, "")]) == ""
  {
  }

  lemma {:induction false} ItemsAreLines(items: Items, depth: nat)
    ensures Joined(ItemLines(items, depth)) == RenderItems(items, depth)
    decreases items, 1
  {
    hide Indent, Blanks, Joined, Render, ValueLines;
    IndentIsBlanks(depth);
    match items
    case NoItem =>
      NoLine();
    case Item(value, rest) =>
      RenderIsLines(value, depth, "", if rest.NoItem? then "" else ",");
      if rest.Item? {
        ItemsAreLines(rest, depth);
        JoinedOfConcat(ValueLines(value, depth, "", ","), ItemLines(rest, depth));
      }
  }

  predicate Dense(lines: seq<Line>) {
    forall k | 0 <= k < |lines| :: lines[k].text != "" ==> lines[k].text[0] != ' '
  }

  /** No line starts with a blank of its own, so exactly twice `depth` blanks are in front of it. */
  lemma {:induction false} LinesAreDense(v: Value, depth: nat, front: string, back: string)
    requires front != "" ==> front[0] != ' '
    ensures Dense(ValueLines(v, depth, front, back))
    decreases v, 0
  {
    hide Escape, Decimal, MemberLines, ItemLines;
    match v
    case Text(_) =>
    case Number(number) =>
      DecimalIsDense(number);
    case Object(members) =>
      MembersAreDense(members, depth + 1);
    case Array(items) =>
      ItemsAreDense(items, depth + 1);
  }

  lemma DecimalIsDense(n: int)
    ensures Decimal(n) != "" && Decimal(n)[0] != ' '
  {
    DigitsShape(if n < 0 then -n else n);
    hide Digits;
  }

  lemma {:induction false} MembersAreDense(ms: Members, depth: nat)
    ensures Dense(MemberLines(ms, depth))
    decreases ms, 1
  {
    hide ValueLines;
    match ms
    case NoMember =>
    case Member(name, value, rest) =>
      LinesAreDense(value, depth, "\"" + name + "\" : ", if rest.NoMember? then "" else ",");
      MembersAreDense(rest, depth);
  }

  lemma {:induction false} ItemsAreDense(items: Items, depth: nat)
    ensures Dense(ItemLines(items, depth))
    decreases items, 1
  {
    hide ValueLines;
    match items
    case NoItem =>
    case Item(value, rest) =>
      LinesAreDense(value, depth, "", if rest.NoItem? then "" else ",");
      ItemsAreDense(rest, depth);
  }
}
