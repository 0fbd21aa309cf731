/** Reading a field out of a connect-argument string (fabrics.c, parse_conn_arg). */
module ConnArgs {
  import opened Basics

  // ----- what the string means -----

  /** The length of the part of `s` before its first `c`. */
  function UpTo(s: string, c: char): (n: nat)
    ensures n <= |s| && c !in s[..n] && (n < |s| ==> s[n] == c)
  {
    if s == [] || s[0] == c then 0 else
    var n := UpTo(s[1..], c);
    assert s[..n + 1] == [s[0]] + s[1..][..n];
    n + 1
  }

  /** The parts of `s` between delimiters. */
  function Split(s: string, delim: char): (parts: seq<string>)
    ensures |parts| > 0
    decreases |s|
  {
    var n := UpTo(s, delim);
    if n == |s| then [s] else [s[..n]] + Split(s[n + 1..], delim)
  }

  predicate HasField(part: string, field: string) {
    field + "=" <= part
  }

  /** The value of the first part of the form field=value; empty when there is none. */
  function FieldValue(parts: seq<string>, field: string): string {
    if parts == [] then ""
    else if HasField(parts[0], field) then parts[0][|field| + 1..]
    else FieldValue(parts[1..], field)
  }

  function Join(parts: seq<string>, delim: char): string {
    if parts == [] then ""
    else parts[0] + if |parts| == 1 then "" else [delim] + Join(parts[1..], delim)
  }

  /** The parts hold no delimiter, and make up the string with one between any two. */
  lemma {:induction false} SplitJoins(s: string, delim: char)
    ensures Join(Split(s, delim), delim) == s
    ensures forall part | part in Split(s, delim) :: delim !in part
    decreases |s|
  {
    var n := UpTo(s, delim);
    if n == |s| {
      assert s[..n] == s && Split(s, delim) == [s];
    } else {
      SplitJoins(s[n + 1..], delim);
      assert s[n] == delim && delim !in s[..n];
      JoinOnce(s[..n], Split(s[n + 1..], delim), delim);
      hide UpTo, Join;
      assert s == s[..n] + ([delim] + s[n + 1..]);
    }
  }

  lemma JoinOnce(first: string, parts: seq<string>, delim: char)
    requires parts != []
    ensures Join([first] + parts, delim) == first + ([delim] + Join(parts, delim))
  {
    assert ([first] + parts)[1..] == parts;
  }

  /** The first part with the field is the field, the assignment and the value. */
  lemma {:induction false} ValueOfFirstPart(parts: seq<string>, field: string, k: nat)
    requires k <= |parts| && forall j | 0 <= j < k :: !(field + "=" <= parts[j])
    ensures k == |parts| ==> FieldValue(parts, field) == ""
    ensures k < |parts| && field + "=" <= parts[k] ==> parts[k] == field + "=" + FieldValue(parts, field)
  {
    if k > 0 {
      ValueOfFirstPart(parts[1..], field, k - 1);
    } else if parts != [] && field + "=" <= parts[0] {
      assert parts[0] == field + "=" + parts[0][|field| + 1..];
    }
  }

  // ----- the C string functions -----

  predicate OccursAt(s: string, i: nat, sub: string) {
    i <= |s| && sub <= s[i..]
  }

  /** strstr from `from` on; a result past the end is the null pointer. */
  function StrStr(s: string, from: nat, sub: string): (i: nat)
    requires from <= |s|
    ensures from <= i <= |s| + 1
    ensures i <= |s| ==> OccursAt(s, i, sub)
    ensures forall j | from <= j < i :: !OccursAt(s, j, sub)
    decreases |s| - from
  {
    if OccursAt(s, from, sub) then from
    else if from == |s| then |s| + 1
    else StrStr(s, from + 1, sub)
  }

  // ----- searching -----

  /** The value found when the search starts at position `at`, the start of a part. */
  function From(s: string, at: nat, delim: char, field: string): string
    requires at <= |s|
  {
    FieldValue(Split(s[at..], delim), field)
  }

  lemma {:induction false} UpToIs(s: string, c: char, n: nat)
    requires n <= |s| && c !in s[..n] && (n < |s| ==> s[n] == c)
    ensures UpTo(s, c) == n
  {
    if n > 0 {
      assert s[0] in s[..n];
      assert s[1..][..n - 1] == s[1..n];
      forall x | x in s[1..n]
        ensures x in s[..n]
      {
        var k :| 1 <= k < n && s[k] == x;
        assert s[..n][k] == x;
      }
      UpToIs(s[1..], c, n - 1);
    }
  }

  /** The part at `at` ends at the next delimiter, and the search goes on behind it. */
  lemma FromUnfolds(s: string, at: nat, delim: char, field: string, end: nat)
    requires at <= end <= |s| && (end < |s| ==> s[end] == delim)
    requires forall j | at <= j < end :: s[j] != delim
    ensures From(s, at, delim, field) ==
            if HasField(s[at..end], field) then s[at + |field| + 1..end]
            else if end == |s| then "" else From(s, end + 1, delim, field)
  {
    var t, n := s[at..], end - at;
    assert t[..n] == s[at..end];
    UpToIs(t, delim, n);
    if n < |t| {
      assert t[n + 1..] == s[end + 1..];
      assert Split(t, delim)[1..] == Split(s[end + 1..], delim);
    } else {
      assert t == s[at..end];
      assert Split(t, delim)[1..] == [];
      assert FieldValue([], field) == "";
    }
  }

  /** A part that holds the field starts with the field name. */
  lemma FieldIsName(s: string, at: nat, end: nat, field: string)
    requires at <= end <= |s| && HasField(s[at..end], field)
    ensures OccursAt(s, at, field)
  {
    assert field == (field + "=")[..|field|] == s[at..end][..|field|] == s[at..][..|field|];
  }

  /** Parts that end before the first occurrence of the field name are passed over: the search from
      `at` is the search from the start of the part that contains `occurrence`. */
  lemma {:induction false} PassParts(s: string, at: nat, delim: char, field: string, occurrence: nat)
    returns (start: nat)
    requires at <= occurrence <= |s|
    requires forall j | at <= j < occurrence :: !OccursAt(s, j, field)
    ensures at <= start <= occurrence && (start == at || s[start - 1] == delim)
    ensures forall j | start <= j < occurrence :: s[j] != delim
    ensures From(s, at, delim, field) == From(s, start, delim, field)
    decreases occurrence - at
  {
    hide From, HasField, OccursAt, StrChr;
    var end := StrChr(s, at, delim);
    if end >= occurrence {
      start := at;
    } else {
      assert !OccursAt(s, at, field);
      NoNameNoField(s, at, end, field);
      FromUnfolds(s, at, delim, field, end);
      start := PassParts(s, end + 1, delim, field, occurrence);
    }
  }

  /** A part whose start does not even hold the field name does not hold the field. */
  lemma NoNameNoField(s: string, at: nat, end: nat, field: string)
    requires at <= end <= |s| && !OccursAt(s, at, field)
    ensures !HasField(s[at..end], field)
  {
    hide HasField, OccursAt;
    if HasField(s[at..end], field) {
      FieldIsName(s, at, end, field);
    }
  }

  /** A part that starts with the field name holds the field if an assignment follows the name; the
      name does not reach past the end of the part. */
  lemma NameAtStart(s: string, at: nat, delim: char, field: string)
    requires delim != '=' && delim !in field && at <= |s| && OccursAt(s, at, field)
    ensures at + |field| <= |s|
    ensures forall j | at <= j < at + |field| :: s[j] != delim
    ensures forall end | at + |field| <= end <= |s| :: HasField(s[at..end], field) <==>
                         at + |field| < end && s[at + |field|] == '='
  {
    forall j | at <= j < at + |field|
      ensures s[j] != delim
    {
      assert s[j] == s[at..][j - at] == field[j - at];
    }
    forall end | at + |field| <= end <= |s|
      ensures HasField(s[at..end], field) <==> at + |field| < end && s[at + |field|] == '='
    {
      assert s[at..end][..|field|] == s[at..][..|field|] == field;
    }
  }

  /** parse_conn_arg: the value of the first part of the form field=value, whatever else the string
      holds and wherever else the field name occurs in it. */
  method ParseConnArg(conargs: string, delim: char, field: string) returns (value: string)
    requires delim != '=' && delim !in field
    ensures value == FieldValue(Split(conargs, delim), field)
  {
    hide From, HasField, OccursAt, FieldValue, Split;
    var at := 0;
    WholeString(conargs, delim, field);
    while true
      invariant at <= |conargs|
      invariant From(conargs, at, delim, field) == FieldValue(Split(conargs, delim), field)
      decreases |conargs| - at
    {
      var s := StrStr(conargs, at, field);
      if s > |conargs| {
        ghost var start := PassParts(conargs, at, delim, field, |conargs|);
        FromUnfolds(conargs, start, delim, field, |conargs|);
        NoNameNoField(conargs, start, |conargs|, field);
        return "";
      }
      ghost var start := PassParts(conargs, at, delim, field, s);
      NameAtStart(conargs, s, delim, field);
      ghost var found := s;
      if s == at || conargs[s - 1] == delim {
        s := s + |field|;
        if s < |conargs| && conargs[s] == '=' {
          s := s + 1;
          var e := StrChr(conargs, s, delim);
          FromUnfolds(conargs, start, delim, field, e);
          return conargs[s..e];
        }
      }
      var next := StrChr(conargs, s, delim);
      FromUnfolds(conargs, start, delim, field, next);
      if start < found {
        NoNameNoField(conargs, start, next, field);
      }
      if next == |conargs| {
        return "";
      }
      at := next + 1;
    }
  }

  lemma WholeString(s: string, delim: char, field: string)
    ensures From(s, 0, delim, field) == FieldValue(Split(s, delim), field)
  {
    assert s[0..] == s;
  }
}
