/** The option matcher of util/parser.c: `match_one` and `match_token`.

    A pattern holds literal text, `%%` for a percent sign, and conversions: `%s`, `%Ns`, `%d`,
    `%u`, `%o` and `%x`.  What the C library's number scanners accept is a parameter: a `Scanner`
    gives the length of the number at the front of a text in a base, zero when there is none.

    A text filled in for the conversions of a pattern is read back by the matcher: `SplitRenders`
    and `RenderSplits` together say that a string is accepted exactly when it is the pattern with
    its conversions replaced by texts, each as long as its conversion can make it.
 */
module Tokens {
  import opened Basics

  const MAX_OPT_ARGS := 3

  /** substring_t, with its two pointers as positions in the examined string. */
  datatype Substring = Substring(from: nat, to: nat)

  type Scanner = (nat, string) -> nat

  ghost predicate Scans(scan: Scanner) {
    forall base, text :: scan(base, text) <= |text|
  }

  // ----- conversions -----

  datatype Conversion = Conversion(width: Option<nat>, kind: char)

  function DigitRun(p: string): (n: nat)
    ensures n <= |p|
    ensures forall i | 0 <= i < n :: IsDigit(p[i])
  {
    if p == [] || !IsDigit(p[0]) then 0 else 1 + DigitRun(p[1..])
  }

  /** A width as the code holds it: `strtoul` saturates at 64 bits and an `int` keeps 32 of them.
      A width whose 32 bits are negative as an `int` is above any string length. */
  function Width(digits: string): nat {
    var n := ReadDigits(digits, 0).0;
    (if n < 0x1_0000_0000_0000_0000 then n else 0xffff_ffff_ffff_ffff) % 0x1_0000_0000
  }

  /** The conversion at the front of `p`, which follows a percent sign, and what comes after it. */
  function ConversionAt(p: string): (r: Option<(Conversion, string)>)
    ensures r.Some? ==> |r.value.1| < |p|
  {
    var n := DigitRun(p);
    if n == |p| then None
    else Some((Conversion(if n == 0 then None else Some(Width(p[..n])), p[n]), p[n + 1..]))
  }

  /** How many characters of `text` a conversion takes; `None` when it fails. */
  function Taken(scan: Scanner, c: Conversion, text: string): Option<nat> {
    match c.kind
    case 's' =>
      if text == [] then None
      else if c.width.None? || c.width.value > |text| then Some(|text|)
      else Some(c.width.value)
    case 'd' => Number(scan, 0, text)
    case 'u' => Number(scan, 0, text)
    case 'o' => Number(scan, 8, text)
    case 'x' => Number(scan, 16, text)
    case _ => None
  }

  function Number(scan: Scanner, base: nat, text: string): Option<nat> {
    if scan(base, text) == 0 then None else Some(scan(base, text))
  }

  lemma TakenFits(scan: Scanner, c: Conversion, text: string)
    requires Scans(scan)
    ensures Taken(scan, c, text).Some? ==> Taken(scan, c, text).value <= |text|
  {
    assert scan(0, text) <= |text| && scan(8, text) <= |text| && scan(16, text) <= |text|;
  }

  // ----- the meaning of a pattern -----

  /** The pattern with its conversions replaced by `texts`, in order; `None` when their number
      differs or the pattern ends within a conversion. */
  function Render(p: string, texts: seq<string>): Option<string>
    decreases |p|
  {
    if p == [] then
      if texts == [] then Some([]) else None
    else if p[0] != '%' then
      Prefixed([p[0]], Render(p[1..], texts))
    else if |p| > 1 && p[1] == '%' then
      Prefixed("%", Render(p[2..], texts))
    else
      match ConversionAt(p[1..])
      case None => None
      case Some((_, rest)) =>
        if texts == [] then None else Prefixed(texts[0], Render(rest, texts[1..]))
  }

  function Prefixed(front: string, rest: Option<string>): Option<string> {
    if rest.None? then None else Some(front + rest.value)
  }

  /** Each text is as long as its conversion makes it when the rest of the string follows. */
  predicate Greedy(scan: Scanner, p: string, texts: seq<string>)
    decreases |p|
  {
    if p == [] then
      true
    else if p[0] != '%' then
      Greedy(scan, p[1..], texts)
    else if |p| > 1 && p[1] == '%' then
      Greedy(scan, p[2..], texts)
    else
      match ConversionAt(p[1..])
      case None => true
      case Some((c, rest)) =>
        && texts != []
        && Render(rest, texts[1..]).Some?
        && Taken(scan, c, texts[0] + Render(rest, texts[1..]).value) == Some(|texts[0]|)
        && Greedy(scan, rest, texts[1..])
  }

  // ----- the reference splitter -----

  /** Lay the pattern over `s` from position `at`, one character at a time: the substrings its
      conversions take when it ends exactly where `s` does. */
  function Split(scan: Scanner, p: string, s: string, at: nat): Option<seq<Substring>>
    requires Scans(scan) && at <= |s|
    decreases |p|
  {
    if p == [] then
      if at == |s| then Some([]) else None
    else if p[0] != '%' then
      if at < |s| && s[at] == p[0] then Split(scan, p[1..], s, at + 1) else None
    else if |p| > 1 && p[1] == '%' then
      if at < |s| && s[at] == '%' then Split(scan, p[2..], s, at + 1) else None
    else
      match ConversionAt(p[1..])
      case None => None
      case Some((c, rest)) =>
        match Taken(scan, c, s[at..])
        case None => None
        case Some(n) =>
          TakenFits(scan, c, s[at..]);
          Behind(Substring(at, at + n), Split(scan, rest, s, at + n))
  }

  function Behind(first: Substring, rest: Option<seq<Substring>>): Option<seq<Substring>> {
    if rest.None? then None else Some([first] + rest.value)
  }

  /** In order, without overlap, and inside `s` from position `at` on. */
  predicate Ordered(args: seq<Substring>, s: string, at: nat) {
    args != [] ==>
      at <= args[0].from <= args[0].to <= |s| && Ordered(args[1..], s, args[0].to)
  }

  function Texts(args: seq<Substring>, s: string, at: nat): (texts: seq<string>)
    requires Ordered(args, s, at)
    ensures |texts| == |args|
  {
    if args == [] then [] else [s[args[0].from..args[0].to]] + Texts(args[1..], s, args[0].to)
  }

  lemma {:induction false} OrderedFromEarlier(args: seq<Substring>, s: string, early: nat, late: nat)
    requires early <= late && Ordered(args, s, late)
    ensures Ordered(args, s, early) && Texts(args, s, early) == Texts(args, s, late)
  {
  }

  /** A split is ordered and disjoint; putting its texts back into the pattern gives the string,
      and each text is the longest its conversion can take there. */
  lemma {:induction false} SplitRenders(scan: Scanner, p: string, s: string, at: nat)
    requires Scans(scan) && at <= |s|
    requires Split(scan, p, s, at).Some?
    ensures Ordered(Split(scan, p, s, at).value, s, at)
    ensures Render(p, Texts(Split(scan, p, s, at).value, s, at)) == Some(s[at..])
    ensures Greedy(scan, p, Texts(Split(scan, p, s, at).value, s, at))
    decreases |p|
  {
    hide ConversionAt, Taken, Scans;
    if p == [] {
    } else if p[0] != '%' {
      SplitRenders(scan, p[1..], s, at + 1);
      OrderedFromEarlier(Split(scan, p[1..], s, at + 1).value, s, at, at + 1);
      assert [p[0]] + s[at + 1..] == s[at..];
    } else if |p| > 1 && p[1] == '%' {
      SplitRenders(scan, p[2..], s, at + 1);
      OrderedFromEarlier(Split(scan, p[2..], s, at + 1).value, s, at, at + 1);
      assert "%" + s[at + 1..] == s[at..];
    } else {
      var (c, rest) := ConversionAt(p[1..]).value;
      var n := Taken(scan, c, s[at..]).value;
      TakenFits(scan, c, s[at..]);
      SplitRenders(scan, rest, s, at + n);
      var tail := Split(scan, rest, s, at + n).value;
      TextsBehind(Substring(at, at + n), tail, s, at);
      assert ([s[at..at + n]] + Texts(tail, s, at + n))[1..] == Texts(tail, s, at + n);
      assert s[at..at + n] + s[at + n..] == s[at..];
    }
  }

  lemma Peel(s: string, at: nat, front: string, tail: string)
    requires at <= |s| && s[at..] == front + tail
    ensures at + |front| <= |s| && s[at..at + |front|] == front && s[at + |front|..] == tail
  {
    assert s[at..][..|front|] == front && s[at..][|front|..] == tail;
  }

  /** Every way of filling a pattern with greedy texts is found, with exactly those texts. */
  lemma {:induction false} RenderSplits(scan: Scanner, p: string, texts: seq<string>, s: string, at: nat)
    requires Scans(scan) && at <= |s|
    requires Render(p, texts) == Some(s[at..]) && Greedy(scan, p, texts)
    ensures Split(scan, p, s, at).Some?
    ensures Ordered(Split(scan, p, s, at).value, s, at)
    ensures Texts(Split(scan, p, s, at).value, s, at) == texts
    decreases |p|
  {
    hide ConversionAt, Taken, Scans, Texts;
    if p == [] {
    } else if p[0] != '%' {
      Peel(s, at, [p[0]], Render(p[1..], texts).value);
      RenderSplits(scan, p[1..], texts, s, at + 1);
      OrderedFromEarlier(Split(scan, p[1..], s, at + 1).value, s, at, at + 1);
      assert s[at] == s[at..at + 1][0];
    } else if |p| > 1 && p[1] == '%' {
      Peel(s, at, "%", Render(p[2..], texts).value);
      RenderSplits(scan, p[2..], texts, s, at + 1);
      OrderedFromEarlier(Split(scan, p[2..], s, at + 1).value, s, at, at + 1);
      assert s[at] == s[at..at + 1][0];
    } else {
      var (c, rest) := ConversionAt(p[1..]).value;
      Peel(s, at, texts[0], Render(rest, texts[1..]).value);
      RenderSplits(scan, rest, texts[1..], s, at + |texts[0]|);
      TextsBehind(Substring(at, at + |texts[0]|), Split(scan, rest, s, at + |texts[0]|).value, s, at);
    }
  }

  lemma TextsBehind(first: Substring, args: seq<Substring>, s: string, at: nat)
    requires at <= first.from <= first.to <= |s| && Ordered(args, s, first.to)
    ensures Ordered([first] + args, s, at)
    ensures Texts([first] + args, s, at) == [s[first.from..first.to]] + Texts(args, s, first.to)
  {
    assert ([first] + args)[1..] == args;
  }

  /** The pattern of a table entry is matched by `s`; the null pattern by every string. */
  predicate Accepted(scan: Scanner, pattern: Option<string>, s: string)
    requires Scans(scan)
  {
    pattern.Some? ==>
      var found := Split(scan, pattern.value, s, 0);
      found.Some? && |found.value| <= MAX_OPT_ARGS
  }

  // ----- the matchers -----

  /** Literal text is compared as a whole, as `strncmp` does. */
  lemma {:induction false} SplitText(scan: Scanner, p: string, s: string, at: nat, n: nat)
    requires Scans(scan) && at <= |s| && n <= |p| && '%' !in p[..n]
    ensures Split(scan, p, s, at)
         == if p[..n] <= s[at..] then Split(scan, p[n..], s, at + n) else None
  {
    if n == 0 {
      assert p[n..] == p;
    } else {
      assert p[0] == p[..n][0] && p[1..][..n - 1] == p[..n][1..] && p[1..][n - 1..] == p[n..];
      if at < |s| && s[at] == p[0] {
        SplitText(scan, p[1..], s, at + 1, n - 1);
        assert s[at..] == [s[at]] + s[at + 1..] && p[..n] == [p[0]] + p[1..][..n - 1];
        assert p[..n] <= s[at..] <==> p[1..][..n - 1] <= s[at + 1..];
      } else {
        assert p[..n][0] == p[0] && (at < |s| ==> s[at..][0] == s[at]);
      }
    }
  }

  function Before(args: seq<Substring>, rest: Option<seq<Substring>>): Option<seq<Substring>> {
    if rest.None? then None else Some(args + rest.value)
  }

  lemma BeforeBehind(args: seq<Substring>, first: Substring, rest: Option<seq<Substring>>)
    ensures Before(args, Behind(first, rest)) == Before(args + [first], rest)
  {
    if rest.Some? {
      assert args + ([first] + rest.value) == args + [first] + rest.value;
    }
  }

  /** A conversion applied to `text`: how much it takes, and the pattern that remains. */
  function Step(scan: Scanner, p: string, text: string): (r: Option<(nat, string)>)
    requires Scans(scan)
    ensures r.Some? ==> r.value.0 <= |text| && |r.value.1| < |p|
  {
    match ConversionAt(p)
    case None => None
    case Some((c, rest)) =>
      match Taken(scan, c, text)
      case None => None
      case Some(n) => TakenFits(scan, c, text); Some((n, rest))
  }

  lemma SplitStep(scan: Scanner, p: string, s: string, at: nat)
    requires Scans(scan) && at <= |s| && p != [] && p[0] == '%' && (|p| > 1 ==> p[1] != '%')
    ensures var step := Step(scan, p[1..], s[at..]);
            Split(scan, p, s, at) == if step.None? then None
              else Behind(Substring(at, at + step.value.0), Split(scan, step.value.1, s, at + step.value.0))
  {
    hide ConversionAt, Taken, Scans, Behind;
  }

  // What the loop of match_one knows: `found` is what the pattern is split into as a whole, and the
  // first `argc` slots of `args` are the part of it in front of what `p` makes of `s` from `at` on.

  ghost predicate SoFar(scan: Scanner, found: Option<seq<Substring>>, p: string, s: string, at: nat,
                        argc: nat, was: seq<Substring>, args: seq<Substring>)
    requires Scans(scan)
  {
    && at <= |s| && argc <= |args| == |was|
    && args[argc..] == was[argc..]
    && found == Before(args[..argc], Split(scan, p, s, at))
  }

  lemma AtStart(scan: Scanner, p: string, s: string, was: seq<Substring>)
    requires Scans(scan)
    ensures SoFar(scan, Split(scan, p, s, 0), p, s, 0, 0, was, was)
  {
    var found := Split(scan, p, s, 0);
    assert was[..0] == [] && (found.Some? ==> [] + found.value == found.value);
  }

  /** Literal text up to the end of the pattern. */
  lemma LastText(scan: Scanner, found: Option<seq<Substring>>, p: string, s: string, at: nat,
                 argc: nat, was: seq<Substring>, args: seq<Substring>)
    requires Scans(scan) && SoFar(scan, found, p, s, at, argc, was, args) && '%' !in p
    ensures found == if p == s[at..] then Some(args[..argc]) else None
    ensures argc <= |args| == |was| && args == args[..argc] + was[argc..]
  {
    SplitText(scan, p, s, at, |p|);
    assert p[|p|..] == [] && p[..|p|] == p && args[..argc] + [] == args[..argc];
    assert p == s[at..] <==> p <= s[at..] && |p| == |s| - at;
  }

  /** Literal text up to position `n` of the pattern. */
  lemma NextText(scan: Scanner, found: Option<seq<Substring>>, p: string, s: string, at: nat,
                 argc: nat, was: seq<Substring>, args: seq<Substring>, n: nat)
    requires Scans(scan) && SoFar(scan, found, p, s, at, argc, was, args)
    requires n <= |p| && '%' !in p[..n]
    ensures at <= |s|
    ensures if p[..n] <= s[at..] then SoFar(scan, found, p[n..], s, at + n, argc, was, args) else found == None
  {
    SplitText(scan, p, s, at, n);
    hide Split;
  }

  lemma NextPercent(scan: Scanner, found: Option<seq<Substring>>, p: string, s: string, at: nat,
                    argc: nat, was: seq<Substring>, args: seq<Substring>)
    requires Scans(scan) && SoFar(scan, found, p, s, at, argc, was, args)
    requires |p| > 1 && p[0] == '%' && p[1] == '%'
    ensures if at < |s| && s[at] == '%' then SoFar(scan, found, p[2..], s, at + 1, argc, was, args)
            else found == None
  {
  }

  /** A conversion that fails, or one for which no slot is left. */
  lemma NoArgument(scan: Scanner, found: Option<seq<Substring>>, p: string, s: string, at: nat,
                   argc: nat, was: seq<Substring>, args: seq<Substring>)
    requires Scans(scan) && SoFar(scan, found, p, s, at, argc, was, args)
    requires p != [] && p[0] == '%' && (|p| > 1 ==> p[1] != '%')
    ensures at <= |s|
    ensures Step(scan, p[1..], s[at..]).None? ==> found == None
    ensures found.Some? ==> |found.value| > argc
  {
    SplitStep(scan, p, s, at);
    hide Split, Step;
  }

  lemma NextArgument(scan: Scanner, found: Option<seq<Substring>>, p: string, s: string, at: nat,
                     argc: nat, was: seq<Substring>, args: seq<Substring>, next: nat, rest: string,
                     args': seq<Substring>)
    requires Scans(scan) && SoFar(scan, found, p, s, at, argc, was, args)
    requires p != [] && p[0] == '%' && (|p| > 1 ==> p[1] != '%') && argc < |args| == |args'|
    requires at <= next <= |s| && Step(scan, p[1..], s[at..]) == Some((next - at, rest))
    requires args'[..argc + 1] == args[..argc] + [Substring(at, next)]
    requires args'[argc + 1..] == args[argc + 1..]
    ensures SoFar(scan, found, rest, s, next, argc + 1, was, args')
  {
    SplitStep(scan, p, s, at);
    hide Split, Step;
    BeforeBehind(args[..argc], Substring(at, next), Split(scan, rest, s, next));
    assert args[argc + 1..] == args[argc..][1..] == was[argc..][1..] == was[argc + 1..];
  }

  /** The part of match_one behind a percent sign that starts a conversion. */
  method Convert(scan: Scanner, p: string, s: string, at: nat, args: array<Substring>, argc: nat)
    returns (ok: bool, rest: string, next: nat)
    requires Scans(scan) && at <= |s| < 0x8000_0000 && argc < args.Length
    modifies args
    ensures ok <==> Step(scan, p, s[at..]).Some?
    ensures ok ==> Step(scan, p, s[at..]) == Some((next - at, rest)) && at <= next <= |s|
    ensures ok ==> args[..][..argc + 1] == old(args[..][..argc]) + [Substring(at, next)]
    ensures args[..][argc + 1..] == old(args[..][argc + 1..])
  {
    var width: Option<nat> := None;
    rest, next := p, at;
    var run := DigitRun(p);
    if run > 0 {
      width, rest := Some(Width(p[..run])), p[run..];
    }
    args[argc] := args[argc].(from := at);
    if rest == "" {
      return false, rest, next;
    }
    var conversion := Conversion(width, rest[0]);
    rest := rest[1..];
    var taken := Taken(scan, conversion, s[at..]);
    if taken.None? {
      return false, rest, next;
    }
    TakenFits(scan, conversion, s[at..]);
    args[argc] := args[argc].(to := at + taken.value);
    next, ok := args[argc].to, true;
  }

  /** match_one: true exactly when the pattern, filled with at most three arguments, is the string;
      the arguments are then left in `args`. A null pattern is always matched. */
  method MatchOne(scan: Scanner, s: string, pattern: Option<string>, args: array<Substring>)
    returns (matched: bool)
    requires Scans(scan) && args.Length == MAX_OPT_ARGS && |s| < 0x8000_0000
    modifies args
    ensures matched <==> Accepted(scan, pattern, s)
    ensures pattern.None? ==> args[..] == old(args[..])
    ensures pattern.Some? && matched ==>
      var found := Split(scan, pattern.value, s, 0).value;
      args[..] == found + old(args[..])[|found|..]
  {
    hide Split, Step, Scans, SoFar, DigitRun, StrChr;
    if pattern.None? {
      return true;
    }
    var p, at: nat, argc: nat := pattern.value, 0, 0;
    ghost var was, found := args[..], Split(scan, p, s, 0);
    AtStart(scan, p, s, was);
    while true
      invariant at <= |s| && argc <= MAX_OPT_ARGS
      invariant SoFar(scan, found, p, s, at, argc, was, args[..])
      decreases |p|
    {
      var meta := StrChr(p, 0, '%');
      if meta == |p| {
        LastText(scan, found, p, s, at, argc, was, args[..]);
        return p == s[at..];
      }
      NextText(scan, found, p, s, at, argc, was, args[..], meta);
      if !(p[..meta] <= s[at..]) {
        return false;
      }
      ghost var here := p[meta..];
      at, p := at + meta, p[meta + 1..];
      assert here[0] == '%' && here[1..] == p && |here| == |p| + 1;
      if p != "" && p[0] == '%' {
        NextPercent(scan, found, here, s, at, argc, was, args[..]);
        if at == |s| || s[at] != '%' {
          return false;
        }
        at, p := at + 1, p[1..];
        assert here[2..] == p;
        continue;
      }
      NoArgument(scan, found, here, s, at, argc, was, args[..]);
      if argc >= MAX_OPT_ARGS {
        return false;
      }
      ghost var before := args[..];
      var ok, rest, next := Convert(scan, p, s, at, args, argc);
      if !ok {
        return false;
      }
      NextArgument(scan, found, here, s, at, argc, was, before, next, rest, args[..]);
      p, at, argc := rest, next, argc + 1;
    }
  }

  /** What a match means, independently of how it is found: the string is the pattern filled with
      at most three texts, none of which its conversion could have made longer. */
  lemma AcceptedIffFilled(scan: Scanner, pattern: string, s: string)
    requires Scans(scan)
    ensures Accepted(scan, Some(pattern), s) <==> exists texts | |texts| <= 3 ::
      Render(pattern, texts) == Some(s) && Greedy(scan, pattern, texts)
  {
    assert s[0..] == s;
    if Accepted(scan, Some(pattern), s) {
      SplitRenders(scan, pattern, s, 0);
    }
    forall texts | |texts| <= 3 && Render(pattern, texts) == Some(s) && Greedy(scan, pattern, texts)
      ensures Accepted(scan, Some(pattern), s)
    {
      RenderSplits(scan, pattern, texts, s, 0);
    }
  }

  /** The texts a string was filled with are the only ones: two fillings that give the same string
      are the same. */
  lemma FillingIsUnique(scan: Scanner, pattern: string, s: string, texts: seq<string>, others: seq<string>)
    requires Scans(scan)
    requires Render(pattern, texts) == Some(s) && Greedy(scan, pattern, texts)
    requires Render(pattern, others) == Some(s) && Greedy(scan, pattern, others)
    ensures texts == others
  {
    assert s[0..] == s;
    RenderSplits(scan, pattern, texts, s, 0);
    RenderSplits(scan, pattern, others, s, 0);
  }

  // ----- what each conversion matches -----

  lemma {:induction false} RunOfDigits(digits: string, c: char, rest: string)
    requires (forall i | 0 <= i < |digits| :: IsDigit(digits[i])) && !IsDigit(c)
    ensures DigitRun(digits + ([c] + rest)) == |digits|
  {
    var p := digits + ([c] + rest);
    if digits == [] {
      assert p[0] == c;
    } else {
      assert p[0] == digits[0] && p[1..] == digits[1..] + ([c] + rest);
      RunOfDigits(digits[1..], c, rest);
    }
  }

  lemma ConversionIs(digits: string, c: char, back: string)
    requires (forall i | 0 <= i < |digits| :: IsDigit(digits[i])) && !IsDigit(c)
    ensures ConversionAt(digits + ([c] + back))
         == Some((Conversion(if digits == "" then None else Some(Width(digits)), c), back))
  {
    hide DigitRun, Width;
    RunOfDigits(digits, c, back);
    var p := digits + ([c] + back);
    assert p[..|digits|] == digits && p[|digits|] == c && p[|digits| + 1..] == back;
  }

  /** A pattern with one percent sign, up to which it is compared as text. */
  lemma OnePercent(scan: Scanner, front: string, rest: string, s: string)
    requires Scans(scan) && '%' !in front
    ensures Split(scan, front + ("%" + rest), s, 0)
         == if front <= s then Split(scan, "%" + rest, s, |front|) else None
  {
    var p := front + ("%" + rest);
    assert p[..|front|] == front && p[|front|..] == "%" + rest && s[0..] == s;
    SplitText(scan, p, s, 0, |front|);
  }

  lemma TextToTheEnd(scan: Scanner, back: string, s: string, at: nat)
    requires Scans(scan) && '%' !in back && at <= |s|
    ensures Split(scan, back, s, at) == if back == s[at..] then Some([]) else None
  {
    SplitText(scan, back, s, at, |back|);
    assert back[..|back|] == back && back[|back|..] == [];
    assert back == s[at..] <==> back <= s[at..] && |back| == |s| - at;
  }

  /** What is found when a conversion stands between two texts and takes `taken` of what is behind the
      first: the second must be all that remains. */
  ghost predicate FoundBetween(front: string, back: string, s: string, taken: Option<nat>,
                               found: Option<seq<Substring>>)
  {
    if front <= s && taken.Some? then
      && |front| + taken.value <= |s|
      && found == if back == s[|front| + taken.value..] then Some([Substring(|front|, |front| + taken.value)]) else None
    else
      found == None
  }

  /** One conversion between two texts. */
  lemma OneConversion(scan: Scanner, front: string, digits: string, c: char, back: string, s: string)
    requires Scans(scan) && '%' !in front && '%' !in back
    requires (forall i | 0 <= i < |digits| :: IsDigit(digits[i])) && !IsDigit(c)
    requires c == '%' ==> digits != ""
    ensures var width := if digits == "" then None else Some(Width(digits));
      FoundBetween(front, back, s, if front <= s then Taken(scan, Conversion(width, c), s[|front|..]) else None,
                   Split(scan, front + ("%" + (digits + ([c] + back))), s, 0))
  {
    hide Taken, Width, DigitRun, Split, Step, ConversionAt, Scans;
    OnePercent(scan, front, digits + ([c] + back), s);
    if front <= s {
      ConversionThenText(scan, digits, c, back, s, |front|);
    }
  }

  lemma StepIs(scan: Scanner, digits: string, c: char, back: string, text: string)
    requires Scans(scan) && (forall i | 0 <= i < |digits| :: IsDigit(digits[i])) && !IsDigit(c)
    ensures var taken := Taken(scan, Conversion(if digits == "" then None else Some(Width(digits)), c), text);
      Step(scan, digits + ([c] + back), text) == if taken.None? then None else Some((taken.value, back))
  {
    hide Taken, Width, DigitRun, ConversionAt;
    ConversionIs(digits, c, back);
  }

  lemma ConversionThenText(scan: Scanner, digits: string, c: char, back: string, s: string, at: nat)
    requires Scans(scan) && '%' !in back && at <= |s|
    requires (forall i | 0 <= i < |digits| :: IsDigit(digits[i])) && !IsDigit(c)
    requires c == '%' ==> digits != ""
    ensures var taken := Taken(scan, Conversion(if digits == "" then None else Some(Width(digits)), c), s[at..]);
      var found := Split(scan, "%" + (digits + ([c] + back)), s, at);
      && (taken.None? ==> found == None)
      && (taken.Some? ==>
            && at + taken.value <= |s|
            && found == if back == s[at + taken.value..] then Some([Substring(at, at + taken.value)]) else None)
  {
    hide Taken, Width, DigitRun, Split, Step, ConversionAt, Scans;
    var rest := digits + ([c] + back);
    var p := "%" + rest;
    assert p[0] == '%' && p[1..] == rest && |p| > 1;
    FirstOfConversion(digits, c, back);
    StepIs(scan, digits, c, back, s[at..]);
    SplitStep(scan, p, s, at);
    var taken := Taken(scan, Conversion(if digits == "" then None else Some(Width(digits)), c), s[at..]);
    if taken.Some? {
      TakenFits(scan, Conversion(if digits == "" then None else Some(Width(digits)), c), s[at..]);
      TextToTheEnd(scan, back, s, at + taken.value);
      var first := Substring(at, at + taken.value);
      assert [first] + [] == [first];
    }
  }

  lemma FirstOfConversion(digits: string, c: char, back: string)
    requires (forall i | 0 <= i < |digits| :: IsDigit(digits[i])) && (c == '%' ==> digits != "")
    ensures (digits + ([c] + back))[0] != '%'
  {
    if digits != "" {
      assert (digits + ([c] + back))[0] == digits[0];
    }
  }

  lemma Between(front: string, t: string, back: string)
    ensures var s := front + (t + back);
      front <= s && s[|front|..] == t + back && s[|front| + |t|..] == back && |s| == |front| + |t| + |back|
  {
    var s := front + (t + back);
    assert s[|front|..] == t + back;
    assert s[|front| + |t|..] == back;
  }

  lemma TakenNumber(scan: Scanner, width: Option<nat>, c: char, base: nat, text: string)
    requires (c == 'd' && base == 0) || (c == 'u' && base == 0) || (c == 'o' && base == 8) || (c == 'x' && base == 16)
    ensures Taken(scan, Conversion(width, c), text)
         == if scan(base, text) == 0 then None else Some(scan(base, text))
  {
  }

  lemma LettersAreNoDigits()
    ensures !IsDigit('s') && !IsDigit('d') && !IsDigit('u') && !IsDigit('o') && !IsDigit('x')
  {
  }

  lemma LengthBehind(front: string, s: string)
    requires front <= s
    ensures |s[|front|..]| == |s| - |front|
  {
  }

  lemma ScansWithin(scan: Scanner, base: nat, text: string)
    requires Scans(scan)
    ensures scan(base, text) <= |text|
  {
  }

  lemma FoundIs(scan: Scanner, front: string, back: string, s: string, taken: Option<nat>, pattern: string)
    requires Scans(scan) && FoundBetween(front, back, s, taken, Split(scan, pattern, s, 0))
    ensures front <= s && taken.Some? ==> |front| + taken.value <= |s|
    ensures Accepted(scan, Some(pattern), s) <==>
              front <= s && taken.Some? && back == s[|front| + taken.value..]
    ensures Accepted(scan, Some(pattern), s) ==>
              Split(scan, pattern, s, 0) == Some([Substring(|front|, |front| + taken.value)])
  {
    hide Split;
  }

  /** `%d`, `%u`, `%o` and `%x`, with or without a width, match the number that the scanner finds there
      in base 0, 0, 8 or 16, and nothing else; what follows in the pattern must follow the number. */
  lemma NumbersMatched(scan: Scanner, front: string, digits: string, c: char, base: nat, back: string, s: string)
    requires Scans(scan) && '%' !in front && '%' !in back
    requires forall i | 0 <= i < |digits| :: IsDigit(digits[i])
    requires (c == 'd' && base == 0) || (c == 'u' && base == 0) || (c == 'o' && base == 8) || (c == 'x' && base == 16)
    ensures var pattern := front + ("%" + (digits + ([c] + back)));
      var n := if front <= s then scan(base, s[|front|..]) else 0;
      && (Accepted(scan, Some(pattern), s) <==> front <= s && n > 0 && |front| + n <= |s| && s[|front| + n..] == back)
      && (Accepted(scan, Some(pattern), s) ==> Split(scan, pattern, s, 0) == Some([Substring(|front|, |front| + n)]))
  {
    hide *;
    var width := if digits == "" then None else Some(Width(digits));
    var taken := if front <= s then Taken(scan, Conversion(width, c), s[|front|..]) else None;
    LettersAreNoDigits();
    OneConversion(scan, front, digits, c, back, s);
    FoundIs(scan, front, back, s, taken, front + ("%" + (digits + ([c] + back))));
    if front <= s {
      TakenNumber(scan, width, c, base, s[|front|..]);
      LengthBehind(front, s);
      ScansWithin(scan, base, s[|front|..]);
    }
  }

  /** So a text behind an equals sign that is a number as a whole is matched by a pattern like
      `instance=%d`, and is its argument. */
  lemma WholeNumberMatched(scan: Scanner, front: string, t: string)
    requires Scans(scan) && '%' !in front && t != ""
    ensures Accepted(scan, Some(front + ("%" + ("" + ("d" + "")))), front + t) <==> scan(0, t) == |t|
    ensures scan(0, t) == |t| ==>
              Split(scan, front + ("%" + ("" + ("d" + ""))), front + t, 0) == Some([Substring(|front|, |front| + |t|)])
  {
    var s := front + t;
    assert s[|front|..] == t && front <= s;
    assert scan(0, t) <= |t|;
    hide Accepted, Scans, Split;
    NumbersMatched(scan, front, "", 'd', 0, "", s);
  }

  /** `%s` matches everything that is left, if anything is. */
  lemma StringMatched(scan: Scanner, front: string, back: string, s: string)
    requires Scans(scan) && '%' !in front && '%' !in back
    ensures var pattern := front + ("%" + ("" + ("s" + back)));
      && (Accepted(scan, Some(pattern), s) <==> front < s && back == "")
      && (Accepted(scan, Some(pattern), s) ==> Split(scan, pattern, s, 0) == Some([Substring(|front|, |s|)]))
  {
    hide *;
    var taken := if front <= s then Taken(scan, Conversion(None, 's'), s[|front|..]) else None;
    LettersAreNoDigits();
    OneConversion(scan, front, "", 's', back, s);
    FoundIs(scan, front, back, s, taken, front + ("%" + ("" + ("s" + back))));
    if front <= s {
      TakenString(scan, None, s[|front|..]);
      LengthBehind(front, s);
    }
  }

  lemma TakenString(scan: Scanner, width: Option<nat>, text: string)
    ensures Taken(scan, Conversion(width, 's'), text)
         == if text == "" then None
            else if width.None? || width.value > |text| then Some(|text|) else Some(width.value)
  {
  }

  /** `%Ns` matches `N` characters, or all that are left when there are fewer, if any are left.  The
      number is kept in 32 bits of at most 64. */
  lemma WidthMatched(scan: Scanner, front: string, n: nat, w: nat, back: string, s: string)
    requires Scans(scan) && '%' !in front && '%' !in back
    requires w == if n < 0x1_0000_0000_0000_0000 then n % 0x1_0000_0000 else 0xffff_ffff
    ensures var pattern := front + ("%" + (Digits(n) + ("s" + back)));
      var m := if w < |s| - |front| then w else |s| - |front|;
      && (Accepted(scan, Some(pattern), s) <==> front < s && s[|front| + m..] == back)
      && (Accepted(scan, Some(pattern), s) ==> Split(scan, pattern, s, 0) == Some([Substring(|front|, |front| + m)]))
  {
    hide *;
    WidthOfDigits(n);
    WithWidth(scan, front, Digits(n), w, back, s);
  }

  lemma WithWidth(scan: Scanner, front: string, digits: string, w: nat, back: string, s: string)
    requires Scans(scan) && '%' !in front && '%' !in back
    requires digits != "" && (forall i | 0 <= i < |digits| :: IsDigit(digits[i])) && Width(digits) == w
    ensures var pattern := front + ("%" + (digits + ("s" + back)));
      var m := if w < |s| - |front| then w else |s| - |front|;
      && (Accepted(scan, Some(pattern), s) <==> front < s && s[|front| + m..] == back)
      && (Accepted(scan, Some(pattern), s) ==> Split(scan, pattern, s, 0) == Some([Substring(|front|, |front| + m)]))
  {
    hide *;
    var taken := if front <= s then Taken(scan, Conversion(Some(w), 's'), s[|front|..]) else None;
    LettersAreNoDigits();
    OneConversion(scan, front, digits, 's', back, s);
    FoundIs(scan, front, back, s, taken, front + ("%" + (digits + ("s" + back))));
    if front <= s {
      TakenBehind(scan, front, w, s);
    }
    assert front < s <==> front <= s && |front| < |s|;
  }

  lemma TakenBehind(scan: Scanner, front: string, w: nat, s: string)
    requires front <= s
    ensures Taken(scan, Conversion(Some(w), 's'), s[|front|..])
         == if |s| == |front| then None else Some(if w < |s| - |front| then w else |s| - |front|)
  {
    hide *;
    TakenString(scan, Some(w), s[|front|..]);
    LengthBehind(front, s);
  }

  lemma WidthOfDigits(n: nat)
    ensures Digits(n) != "" && forall i | 0 <= i < |Digits(n)| :: IsDigit(Digits(n)[i])
    ensures Width(Digits(n)) == if n < 0x1_0000_0000_0000_0000 then n % 0x1_0000_0000 else 0xffff_ffff
  {
    DigitsAreDigits(n);
    DigitsShape(n);
    hide Digits;
    assert forall i | 0 <= i < |Digits(n)| :: Digits(n)[i] in Digits(n);
    DigitsRead(n);
  }

  lemma DigitsRead(n: nat)
    ensures ReadDigits(Digits(n), 0).0 == n
  {
    DigitsShape(n);
    if n == 0 {
      DigitReads(0);
      assert Digits(0)[1..] == [];
    } else {
      ReadDigitsFrom(n, "");
      assert Digits(n) + "" == Digits(n);
    }
  }

  /** Any other conversion matches nothing, nor does a pattern that ends within one. */
  lemma OthersMatchNothing(scan: Scanner, front: string, digits: string, c: char, back: string, s: string)
    requires Scans(scan) && '%' !in front && '%' !in back
    requires (forall i | 0 <= i < |digits| :: IsDigit(digits[i])) && !IsDigit(c)
    ensures c !in "sduox" && (c == '%' ==> digits != "") ==>
              !Accepted(scan, Some(front + ("%" + (digits + ([c] + back)))), s)
    ensures !Accepted(scan, Some(front + ("%" + digits)), s)
  {
    hide Width, DigitRun, Split;
    if c !in "sduox" && (c == '%' ==> digits != "") {
      OneConversion(scan, front, digits, c, back, s);
    }
    OnePercent(scan, front, digits, s);
    if front <= s {
      EndsInConversion(scan, digits, s, |front|);
    }
  }

  lemma EndsInConversion(scan: Scanner, digits: string, s: string, at: nat)
    requires Scans(scan) && at <= |s| && forall i | 0 <= i < |digits| :: IsDigit(digits[i])
    ensures Split(scan, "%" + digits, s, at) == None
  {
    assert ("%" + digits)[1..] == digits;
    AllDigits(digits);
  }

  lemma {:induction false} AllDigits(digits: string)
    requires forall i | 0 <= i < |digits| :: IsDigit(digits[i])
    ensures DigitRun(digits) == |digits|
  {
    if digits != [] {
      AllDigits(digits[1..]);
    }
  }

  /** `%%` matches a percent sign. */
  lemma PercentMatched(scan: Scanner, front: string, back: string, s: string)
    requires Scans(scan) && '%' !in front && '%' !in back
    ensures Accepted(scan, Some(front + ("%" + ("%" + back))), s) <==> s == front + ("%" + back)
  {
    OnePercent(scan, front, "%" + back, s);
    var p := "%" + ("%" + back);
    assert p[2..] == back;
    if front <= s && |s| > |front| {
      TextToTheEnd(scan, back, s, |front| + 1);
      assert s == front + [s[|front|]] + s[|front| + 1..];
    }
    Between(front, "%", back);
  }

  /** struct match_token. */
  datatype Entry = Entry(token: int, pattern: Option<string>)

  /** match_token, on a table that holds a null pattern: stops at the first entry that `s` matches,
      with that entry's arguments in `args`. */
  method MatchToken(scan: Scanner, s: string, table: seq<Entry>, args: array<Substring>)
    returns (token: int, ghost k: nat)
    requires Scans(scan) && args.Length == MAX_OPT_ARGS && |s| < 0x8000_0000
    requires exists i | 0 <= i < |table| :: table[i].pattern.None?
    modifies args
    ensures k < |table| && token == table[k].token
    ensures Accepted(scan, table[k].pattern, s)
    ensures forall j | 0 <= j < k :: table[j].pattern.Some? && !Accepted(scan, table[j].pattern, s)
    ensures table[k].pattern.Some? ==> Split(scan, table[k].pattern.value, s, 0).value <= args[..]
  {
    hide Split, Scans;
    var p := 0;
    ghost var end: nat :| end < |table| && table[end].pattern.None?;
    var matched := MatchOne(scan, s, table[p].pattern, args);
    while !matched
      invariant p <= end
      invariant matched <==> Accepted(scan, table[p].pattern, s)
      invariant forall j | 0 <= j < p :: table[j].pattern.Some? && !Accepted(scan, table[j].pattern, s)
      invariant matched && table[p].pattern.Some? ==>
        Split(scan, table[p].pattern.value, s, 0).value <= args[..]
      decreases end - p
    {
      p := p + 1;
      matched := MatchOne(scan, s, table[p].pattern, args);
    }
    return table[p].token, p;
  }
}
