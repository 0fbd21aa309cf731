/** The glob matcher of util/parser.c.

    `MatchWildcard` is the iterative matcher that remembers only the last `*` it passed.  It is
    proved against `Accepts`, a recursive reading of what that loop decides, and `Accepts` is then
    related to `Matches`, the documented meaning of a pattern.  The two differ, because the check
    after the loop skips a single `*`: a trailing run of two or more stars behaves as `?*`.
 */
module Wildcard {

  /** The documented meaning: `*` stands for any run of characters, `?` for any one character. */
  predicate Matches(pat: string, str: string)
    decreases |pat| + |str|
  {
    if pat == [] then
      str == []
    else if pat[0] == '*' then
      Matches(pat[1..], str) || (str != [] && Matches(pat, str[1..]))
    else
      str != [] && (pat[0] == '?' || pat[0] == str[0]) && Matches(pat[1..], str[1..])
  }

  /** What the loop decides: as `Matches`, except that at the end of the string only the empty
      pattern and a single `*` are accepted. */
  predicate Accepts(pat: string, str: string)
    decreases |pat| + |str|
  {
    if str == [] then
      pat == [] || pat == "*"
    else if pat == [] then
      false
    else if pat[0] == '*' then
      Accepts(pat[1..], str) || Accepts(pat, str[1..])
    else
      (pat[0] == '?' || pat[0] == str[0]) && Accepts(pat[1..], str[1..])
  }

  predicate AllStars(pat: string) {
    forall i | 0 <= i < |pat| :: pat[i] == '*'
  }

  predicate NoStar(pat: string) {
    forall i | 0 <= i < |pat| :: pat[i] != '*'
  }

  predicate EndsInDoubleStar(pat: string) {
    |pat| >= 2 && pat[|pat| - 1] == '*' && pat[|pat| - 2] == '*'
  }

  /** The pattern the code really applies: a trailing run of two or more stars reads as `?*`. */
  function Effective(pat: string): string {
    if |pat| < 2 then pat
    else if AllStars(pat) then "?*"
    else [pat[0]] + Effective(pat[1..])
  }

  /** The shortest string a pattern matches: the pattern itself with its stars removed. */
  function Literal(pat: string): string {
    if pat == [] then []
    else if pat[0] == '*' then Literal(pat[1..])
    else [pat[0]] + Literal(pat[1..])
  }

  // ----- what a star does -----

  lemma {:induction false} LoneStarAccepts(str: string)
    ensures Accepts("*", str)
    ensures Matches("*", str)
  {
    if str != [] {
      LoneStarAccepts(str[1..]);
    } else {
      assert Matches([], str);
    }
  }

  /** Before the end of the string, a star is a choice of the place where the rest resumes. */
  lemma {:induction false} StarIsChoice(pat: string, str: string)
    requires pat != [] && pat[0] == '*' && str != []
    ensures Accepts(pat, str) <==> exists k | 0 <= k <= |str| :: Accepts(pat[1..], str[k..])
    decreases |str|
  {
    var rest := pat[1..];
    assert str[0..] == str;
    assert pat == "*" + rest;
    if str[1..] != [] {
      StarIsChoice(pat, str[1..]);
      forall k | 0 <= k <= |str| - 1
        ensures str[1..][k..] == str[k + 1..]
      {
      }
      if k :| 0 <= k <= |str| && Accepts(rest, str[k..]) {
        if k > 0 {
          assert str[1..][k - 1..] == str[k..];
        }
      }
    } else {
      if k :| 0 <= k <= |str| && Accepts(rest, str[k..]) {
        if k == 1 && rest == "*" {
          LoneStarAccepts(str);
        }
      }
      if Accepts(pat, str[1..]) {
        assert rest == [];
        assert Accepts(rest, str[1..]);
      }
    }
  }

  /** A star-free segment in front of a pattern consumes exactly its own length. */
  lemma {:induction false} SegmentConsumes(seg: string, rest: string, str: string)
    requires NoStar(seg)
    requires Accepts(seg + rest, str)
    ensures |str| >= |seg|
    ensures Accepts(rest, str[|seg|..])
    decreases |seg|
  {
    if seg == [] {
      assert seg + rest == rest;
      assert str[0..] == str;
    } else {
      assert (seg + rest)[0] == seg[0] != '*';
      assert str != [];
      assert (seg + rest)[1..] == seg[1..] + rest;
      SegmentConsumes(seg[1..], rest, str[1..]);
      assert str[1..][|seg| - 1..] == str[|seg|..];
    }
  }

  /** The step on which the loop rests: once a later star is reached, every way of placing the
      segment before it further right is also a way of continuing from the earliest placement.
      `q..p` is the segment since the previous star, placed at `b` with its end at `s`. */
  lemma LeftmostLosesNothing(pattern: string, str: string, q: nat, p: nat, b: nat, s: nat, k: nat)
    requires q <= p < |pattern| && pattern[p] == '*' && pattern[p + 1..] != []
    requires b <= s < |str| && s - b == p - q
    requires NoStar(pattern[q..p])
    requires b < k <= |str| && Accepts(pattern[q..], str[k..])
    ensures Accepts(pattern[p..], str[s..])
  {
    assert pattern[q..] == pattern[q..p] + pattern[p..];
    SegmentConsumes(pattern[q..p], pattern[p..], str[k..]);
    var k' := k + (p - q);
    assert str[k..][p - q..] == str[k'..];
    assert pattern[p..][1..] == pattern[p + 1..];
    assert str[k'..] != [];
    StarIsChoice(pattern[p..], str[k'..]);
    var j :| 0 <= j <= |str[k'..]| && Accepts(pattern[p + 1..], str[k'..][j..]);
    assert str[k'..][j..] == str[s..][k' + j - s..];
    StarIsChoice(pattern[p..], str[s..]);
  }

  /** The placements still untried for the segment that starts at `q`: those right of `b`. */
  ghost predicate LaterPlacement(pattern: string, str: string, q: nat, b: nat)
    requires q <= |pattern|
  {
    exists k | b < k <= |str| :: Accepts(pattern[q..], str[k..])
  }

  /** Passing a star at `p` with the string at `s`: the new star alone decides. */
  lemma PassStar(pattern: string, str: string, star: bool, q: nat, p: nat, b: nat, s: nat)
    requires q <= p < |pattern| && pattern[p] == '*' && p + 1 < |pattern|
    requires b <= s < |str|
    requires star ==> s - b == p - q && NoStar(pattern[q..p])
    ensures Accepts(pattern[p..], str[s..]) || (star && LaterPlacement(pattern, str, q, b))
       <==> Accepts(pattern[p + 1..], str[s..]) || LaterPlacement(pattern, str, p + 1, s)
  {
    if star && LaterPlacement(pattern, str, q, b) {
      var k :| b < k <= |str| && Accepts(pattern[q..], str[k..]);
      LeftmostLosesNothing(pattern, str, q, p, b, s, k);
    }
    assert pattern[p..][1..] == pattern[p + 1..];
    StarIsChoice(pattern[p..], str[s..]);
    if Accepts(pattern[p..], str[s..]) {
      var j :| 0 <= j <= |str[s..]| && Accepts(pattern[p + 1..], str[s..][j..]);
      assert str[s..][j..] == str[s + j..];
    }
    if Accepts(pattern[p + 1..], str[s..]) {
      assert str[s..][0..] == str[s..];
    } else if LaterPlacement(pattern, str, p + 1, s) {
      var k :| s < k <= |str| && Accepts(pattern[p + 1..], str[k..]);
      assert str[s..][k - s..] == str[k..];
    }
  }

  /** At the end of the string no later placement is left: it would have to fit in less room. */
  lemma NoRoomLeft(pattern: string, str: string, q: nat, p: nat, b: nat)
    requires q <= p <= |pattern| && b <= |str| && |str| - b == p - q
    requires NoStar(pattern[q..p])
    ensures !LaterPlacement(pattern, str, q, b)
  {
    if k :| b < k <= |str| && Accepts(pattern[q..], str[k..]) {
      assert pattern[q..] == pattern[q..p] + pattern[p..];
      SegmentConsumes(pattern[q..p], pattern[p..], str[k..]);
    }
  }

  /** The iterations that `b` restarts can account for, `width` each. */
  ghost function Cost(b: nat, width: nat): nat {
    if b == 0 then 0 else Cost(b - 1, width) + width
  }

  lemma {:induction false} CostIsProduct(b: nat, width: nat)
    ensures Cost(b, width) == width * b
  {
    if b > 0 {
      CostIsProduct(b - 1, width);
      assert width * b == width * (b - 1) + width;
    }
  }

  lemma {:induction false} CostGrows(b: nat, b': nat, width: nat)
    requires b <= b'
    ensures Cost(b, width) <= Cost(b', width)
    decreases b'
  {
    if b < b' {
      CostGrows(b, b' - 1, width);
    }
  }

  /** One non-star pattern character against one character of the string. */
  lemma OneCharacter(pattern: string, str: string, p: nat, s: nat)
    requires p <= |pattern| && s < |str|
    requires p < |pattern| ==> pattern[p] != '*'
    ensures p < |pattern| && (pattern[p] == '?' || pattern[p] == str[s]) ==>
              (Accepts(pattern[p..], str[s..]) <==> Accepts(pattern[p + 1..], str[s + 1..]))
    ensures p == |pattern| || (pattern[p] != '?' && pattern[p] != str[s]) ==>
              !Accepts(pattern[p..], str[s..])
  {
    assert str[s..][1..] == str[s + 1..];
    if p < |pattern| {
      assert pattern[p..][1..] == pattern[p + 1..];
    }
  }

  /** A mismatch moves the segment one place to the right. */
  lemma NextPlacement(pattern: string, str: string, q: nat, b: nat)
    requires q <= |pattern| && b < |str|
    ensures LaterPlacement(pattern, str, q, b)
       <==> Accepts(pattern[q..], str[b + 1..]) || LaterPlacement(pattern, str, q, b + 1)
  {
  }

  lemma AtTheEnd(pattern: string, p: nat)
    requires p <= |pattern|
    ensures Accepts(pattern[p..], "")
       <==> p == |pattern| || (pattern[p] == '*' && p + 1 == |pattern|)
  {
    if p < |pattern| {
      assert pattern[p..] == "*" <==> pattern[p] == '*' && p + 1 == |pattern|;
    }
  }

  /** util/parser.c, match_wildcard.  `steps` counts loop iterations; `b` and `q` are the source's
      `str` and `pattern`, the places a mismatch restarts from. */
  method MatchWildcard(pattern: string, str: string) returns (r: bool, ghost steps: nat)
    ensures r <==> Accepts(pattern, str)
    ensures r <==> Matches(Effective(pattern), str)
    ensures r ==> Matches(pattern, str)
    ensures steps <= (|pattern| + 1) * (|str| + 1)
  {
    hide Accepts, Matches, Effective, LaterPlacement;
    var s, p := 0, 0;
    var b, q := 0, 0;
    var star := false;
    ghost var width := |pattern| + 1;
    steps := 0;
    assert pattern[0..] == pattern && str[0..] == str;
    while s < |str|
      invariant 0 <= b <= s <= |str| && 0 <= q <= p <= |pattern|
      invariant star ==> s - b == p - q && forall i | q <= i < p :: pattern[i] != '*'
      invariant !star ==> b == 0
      invariant Accepts(pattern, str) <==>
                Accepts(pattern[p..], str[s..]) || (star && LaterPlacement(pattern, str, q, b))
      invariant steps <= Cost(b, width) + p
      decreases |str| - b, |pattern| - p
    {
      steps := steps + 1;
      if p < |pattern| && pattern[p] == '?' {
        OneCharacter(pattern, str, p, s);
        s, p := s + 1, p + 1;
      } else if p < |pattern| && pattern[p] == '*' {
        if p + 1 == |pattern| {
          assert pattern[p..] == "*";
          LoneStarAccepts(str[s..]);
          r := true;
          Verdict(pattern, str, b, p, steps);
          return;
        }
        PassStar(pattern, str, star, q, p, b, s);
        CostGrows(b, s, width);
        star := true;
        b := s;
        p := p + 1;
        q := p;
      } else if p < |pattern| && str[s] == pattern[p] {
        OneCharacter(pattern, str, p, s);
        s, p := s + 1, p + 1;
      } else {
        OneCharacter(pattern, str, p, s);
        if !star {
          r := false;
          Verdict(pattern, str, b, p, steps);
          return;
        }
        NextPlacement(pattern, str, q, b);
        b := b + 1;
        s := b;
        p := q;
      }
    }
    if star {
      NoRoomLeft(pattern, str, q, p, b);
    }
    assert str[s..] == [];
    AtTheEnd(pattern, p);
    Verdict(pattern, str, b, p, steps);
    if p < |pattern| && pattern[p] == '*' {
      p := p + 1;
    }
    r := p == |pattern|;
  }

  /** What holds of every run, gathered for the three places where the method returns. */
  lemma Verdict(pattern: string, str: string, b: nat, p: nat, steps: nat)
    requires b <= |str| && p <= |pattern|
    requires steps <= Cost(b, |pattern| + 1) + p + 1
    ensures Accepts(pattern, str) <==> Matches(Effective(pattern), str)
    ensures Accepts(pattern, str) ==> Matches(pattern, str)
    ensures steps <= (|pattern| + 1) * (|str| + 1)
  {
    AcceptsIsEffective(pattern, str);
    if Accepts(pattern, str) {
      AcceptsIsSound(pattern, str);
    }
    StepBound(|pattern| + 1, |str|, b, p, steps);
  }

  lemma StepBound(width: nat, n: nat, b: nat, p: nat, steps: nat)
    requires b <= n && p < width
    requires steps <= Cost(b, width) + p + 1
    ensures steps <= width * (n + 1)
  {
    CostGrows(b, n, width);
    CostIsProduct(n + 1, width);
  }

  // ----- how far the code is from the documented meaning -----

  lemma {:induction false} AcceptsIsSound(pat: string, str: string)
    requires Accepts(pat, str)
    ensures Matches(pat, str)
    decreases |pat| + |str|
  {
    if str == [] {
      if pat == "*" {
        LoneStarAccepts(str);
      }
    } else if pat[0] == '*' {
      if Accepts(pat[1..], str) {
        AcceptsIsSound(pat[1..], str);
      } else {
        AcceptsIsSound(pat, str[1..]);
      }
    } else {
      AcceptsIsSound(pat[1..], str[1..]);
    }
  }

  lemma {:induction false} StarsNeedOneCharacter(pat: string, str: string)
    requires |pat| >= 2 && AllStars(pat)
    ensures Accepts(pat, str) <==> str != []
  {
    if str != [] {
      if |pat| == 2 {
        assert pat[1..] == "*";
        LoneStarAccepts(str);
      } else {
        StarsNeedOneCharacter(pat[1..], str);
      }
    }
  }

  /** For every pattern and string, the code decides a match against the effective pattern. */
  lemma {:induction false} AcceptsIsEffective(pat: string, str: string)
    ensures Accepts(pat, str) <==> Matches(Effective(pat), str)
    decreases |pat| + |str|
  {
    if |pat| < 2 {
      if pat == "*" {
        LoneStarAccepts(str);
      } else if pat != [] && str != [] {
        assert pat[1..] == [];
      }
    } else if AllStars(pat) {
      StarsNeedOneCharacter(pat, str);
      assert "?*"[1..] == "*";
      if str != [] {
        LoneStarAccepts(str[1..]);
      }
    } else {
      var rest := pat[1..];
      assert Effective(pat) == [pat[0]] + Effective(rest);
      assert Effective(pat)[1..] == Effective(rest);
      if pat[0] == '*' {
        AcceptsIsEffective(rest, str);
        if str != [] {
          AcceptsIsEffective(pat, str[1..]);
        } else {
          var i :| 0 <= i < |pat| && pat[i] != '*';
          assert rest[i - 1] != '*';
        }
      } else if str != [] {
        AcceptsIsEffective(rest, str[1..]);
      }
    }
  }

  lemma {:induction false} EffectiveIsIdentity(pat: string)
    requires !EndsInDoubleStar(pat)
    ensures Effective(pat) == pat
  {
    if |pat| >= 2 {
      assert !AllStars(pat);
      EffectiveIsIdentity(pat[1..]);
    }
  }

  lemma {:induction false} MatchNeedsLiteralLength(pat: string, str: string)
    requires Matches(pat, str)
    ensures |str| >= |Literal(pat)|
    decreases |pat| + |str|
  {
    if pat == [] {
    } else if pat[0] == '*' {
      if Matches(pat[1..], str) {
        MatchNeedsLiteralLength(pat[1..], str);
      } else {
        MatchNeedsLiteralLength(pat, str[1..]);
      }
    } else {
      MatchNeedsLiteralLength(pat[1..], str[1..]);
    }
  }

  lemma {:induction false} LiteralMatches(pat: string)
    ensures Matches(pat, Literal(pat))
  {
    if pat != [] {
      LiteralMatches(pat[1..]);
      if pat[0] != '*' {
        assert Literal(pat)[1..] == Literal(pat[1..]);
      }
    }
  }

  lemma {:induction false} StarsHaveNoLiteral(pat: string)
    requires AllStars(pat)
    ensures Literal(pat) == []
  {
    if pat != [] {
      StarsHaveNoLiteral(pat[1..]);
    }
  }

  lemma {:induction false} EffectiveNeedsOneMore(pat: string)
    requires EndsInDoubleStar(pat)
    ensures |Literal(Effective(pat))| == |Literal(pat)| + 1
  {
    if AllStars(pat) {
      StarsHaveNoLiteral(pat);
      StarsHaveNoLiteral("*");
      assert "?*"[1..] == "*";
      assert Literal("?*") == "?" + Literal("*");
    } else {
      assert EndsInDoubleStar(pat[1..]);
      EffectiveNeedsOneMore(pat[1..]);
      assert Effective(pat)[1..] == Effective(pat[1..]);
    }
  }

  /** The code agrees with the documented meaning on every string exactly when the pattern does
      not end in `**`; for a pattern that does, its own literal is a string it gets wrong. */
  lemma CompleteIffNoTrailingDoubleStar(pat: string)
    ensures (forall str :: Matches(Effective(pat), str) <==> Matches(pat, str))
       <==> !EndsInDoubleStar(pat)
    ensures EndsInDoubleStar(pat) ==>
              Matches(pat, Literal(pat)) && !Matches(Effective(pat), Literal(pat))
  {
    if EndsInDoubleStar(pat) {
      LiteralMatches(pat);
      EffectiveNeedsOneMore(pat);
      var str := Literal(pat);
      if Matches(Effective(pat), str) {
        MatchNeedsLiteralLength(Effective(pat), str);
      }
      assert !Matches(Effective(pat), str);
    } else {
      EffectiveIsIdentity(pat);
    }
  }

  /** The smallest such case: `a**` is documented to match `a`, and the code rejects it. */
  lemma DoubleStarExample()
    ensures Matches("a**", "a") && !Matches(Effective("a**"), "a")
  {
    CompleteIffNoTrailingDoubleStar("a**");
    StarsHaveNoLiteral("**");
    assert "a**"[1..] == "**";
    assert Literal("a**") == "a" + Literal("**") == "a";
  }
}
