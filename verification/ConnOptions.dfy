/** Building the connect-argument string (fabrics.c, build_options) and reading its fields back. */
module ConnOptions {
  import opened Basics
  import opened ConnArgs

  // ----- what is written -----

  datatype Entry = KeyValue(name: string, value: string) | Flag(name: string)

  function EntryText(e: Entry): string {
    match e
    case KeyValue(name, value) => name + "=" + value
    case Flag(name) => name
  }

  /** Entries that are not the first: a comma before each. */
  function Tail(es: seq<Entry>): string {
    if es == [] then "" else "," + EntryText(es[0]) + Tail(es[1..])
  }

  function Text(es: seq<Entry>): string {
    if es == [] then "" else EntryText(es[0]) + Tail(es[1..])
  }

  /** The settings `cfg` of fabrics.c that end up in the string. */
  datatype Config = Config(
    nqn: string, transport: Option<string>, traddr: Option<string>, hostTraddr: Option<string>,
    trsvcid: Option<string>, hostnqn: Option<string>, hostid: Option<string>,
    nrIoQueues: int, nrWriteQueues: int, nrPollQueues: int, queueSize: int, keepAliveTmo: int,
    reconnectDelay: int, ctrlLossTmo: int, tos: int,
    duplicateConnect: bool, disableSqflow: bool, hdrDigest: bool, dataDigest: bool)

  function Argument(name: string, arg: Option<string>): seq<Entry> {
    if arg.Some? && arg.value != "none" then [KeyValue(name, arg.value)] else []
  }

  function IntArgument(name: string, arg: int, allowZero: bool): seq<Entry> {
    if (arg != 0 && !allowZero) || (arg != -1 && allowZero) then [KeyValue(name, Decimal(arg))] else []
  }

  function BoolArgument(name: string, arg: bool): seq<Entry> {
    if arg then [Flag(name)] else []
  }

  /** Where the value of option number `i` comes from.  Three are left out for discovery. */
  datatype Setting =
    | Always(value: string)
    | Str(arg: Option<string>)
    | Num(number: int, allowZero: bool)
    | OnOff(on: bool)
    | Omitted

  function SettingOf(cfg: Config, discover: bool, i: nat): Setting {
    match i
    case 0 => Always(cfg.nqn)
    case 1 => Str(cfg.transport)
    case 2 => Str(cfg.traddr)
    case 3 => Str(cfg.hostTraddr)
    case 4 => Str(cfg.trsvcid)
    case 5 => Str(cfg.hostnqn)
    case 6 => Str(cfg.hostid)
    case 7 => if discover then Omitted else Num(cfg.nrIoQueues, false)
    case 8 => Num(cfg.nrWriteQueues, false)
    case 9 => Num(cfg.nrPollQueues, false)
    case 10 => if discover then Omitted else Num(cfg.queueSize, false)
    case 11 => if discover then Omitted else Num(cfg.keepAliveTmo, false)
    case 12 => Num(cfg.reconnectDelay, false)
    case 13 => Num(cfg.ctrlLossTmo, false)
    case 14 => Num(cfg.tos, true)
    case 15 => OnOff(cfg.duplicateConnect)
    case 16 => OnOff(cfg.disableSqflow)
    case 17 => OnOff(cfg.hdrDigest)
    case _ => OnOff(cfg.dataDigest)
  }

  function Piece(name: string, setting: Setting): seq<Entry> {
    match setting
    case Always(value) => [KeyValue(name, value)]
    case Str(arg) => Argument(name, arg)
    case Num(number, allowZero) => IntArgument(name, number, allowZero)
    case OnOff(on) => BoolArgument(name, on)
    case Omitted => []
  }

  /** The options in the order of build_options, each present or not. */
  function Pieces(cfg: Config, discover: bool): (pieces: seq<seq<Entry>>)
    ensures |pieces| == |NAMES|
  {
    seq(|NAMES|, i requires 0 <= i < |NAMES| => Piece(NAMES[i], SettingOf(cfg, discover, i)))
  }

  const NAMES: seq<string> := [
    "nqn", "transport", "traddr", "host_traddr", "trsvcid", "hostnqn", "hostid", "nr_io_queues",
    "nr_write_queues", "nr_poll_queues", "queue_size", "keep_alive_tmo", "reconnect_delay",
    "ctrl_loss_tmo", "tos", "duplicate_connect", "disable_sqflow", "hdr_digest", "data_digest"]

  function Flatten(pieces: seq<seq<Entry>>): seq<Entry> {
    if pieces == [] then [] else pieces[0] + Flatten(pieces[1..])
  }

  // ----- reading entries back -----

  predicate CleanEntry(e: Entry) {
    ',' !in EntryText(e)
  }

  /** A name that cannot be confused: neither delimiter nor assignment in it. */
  predicate PlainName(name: string) {
    ',' !in name && '=' !in name
  }

  lemma TextSplits(es: seq<Entry>)
    requires es != [] && CleanEntry(es[0])
    ensures Split(Text(es), ',') ==
            [EntryText(es[0])] + (if |es| == 1 then [] else Split(Text(es[1..]), ','))
  {
    hide EntryText;
    var first, rest := EntryText(es[0]), Text(es[1..]);
    if |es| == 1 {
      assert Tail(es[1..]) == "";
      SplitOnce(first, "");
    } else {
      assert Tail(es[1..]) == "," + rest;
      SplitOnce(first, "," + rest);
      assert ("," + rest)[1..] == rest;
    }
  }

  lemma SplitOnce(first: string, tail: string)
    requires ',' !in first && (tail != "" ==> tail[0] == ',')
    ensures Split(first + tail, ',') == [first] + (if tail == "" then [] else Split(tail[1..], ','))
  {
    var s := first + tail;
    assert s[..|first|] == first;
    UpToIs(s, ',', |first|);
    if tail == "" {
      assert s == first;
    } else {
      assert s[|first| + 1..] == tail[1..];
    }
  }

  /** An entry holds a field exactly when it is the key and value of that name. */
  lemma HasFieldIffNamed(e: Entry, field: string)
    requires PlainName(e.name) && PlainName(field)
    ensures HasField(EntryText(e), field) <==> e.KeyValue? && e.name == field
  {
    var text := EntryText(e);
    if e.KeyValue? {
      assert text[..|e.name|] == e.name;
      UpToIs(text, '=', |e.name|);
    } else {
      assert text[..|text|] == text;
      UpToIs(text, '=', |text|);
    }
    if HasField(text, field) {
      var prefix := field + "=";
      assert text[..|prefix|] == prefix;
      assert text[..|field|] == prefix[..|field|] == field;
      assert text[|field|] == prefix[|field|] == '=';
      UpToIs(text, '=', |field|);
    }
  }

  ghost predicate OtherClean(es: seq<Entry>, field: string) {
    forall e | e in es :: PlainName(e.name) && CleanEntry(e) && e.name != field
  }

  /** The first entry of a name is what the field reads as, up to a comma in its value. */
  lemma {:induction false} FirstOfNameIsRead(before: seq<Entry>, e: Entry, after: seq<Entry>)
    requires e.KeyValue? && PlainName(e.name) && OtherClean(before, e.name)
    ensures FieldValue(Split(Text(before + ([e] + after)), ','), e.name)
         == e.value[..UpTo(e.value, ',')]
    decreases |before|
  {
    var es := before + ([e] + after);
    if before == [] {
      assert es == [e] + after;
      ValueOfFirst(es);
    } else {
      assert before[0] in before && es[0] == before[0];
      assert es[1..] == before[1..] + ([e] + after);
      PassEntry(es, e.name);
      hide *;
      FirstOfNameIsRead(before[1..], e, after);
    }
  }

  lemma PassEntry(es: seq<Entry>, field: string)
    requires |es| > 1 && PlainName(es[0].name) && PlainName(field)
    requires es[0].name != field && CleanEntry(es[0])
    ensures FieldValue(Split(Text(es), ','), field) == FieldValue(Split(Text(es[1..]), ','), field)
  {
    hide EntryText, Text, Split, CleanEntry, PlainName, HasField;
    TextSplits(es);
    HasFieldIffNamed(es[0], field);
    assert Split(Text(es), ',')[1..] == Split(Text(es[1..]), ',');
  }

  lemma ValueOfFirst(es: seq<Entry>)
    requires es != [] && es[0].KeyValue? && PlainName(es[0].name)
    ensures var KeyValue(name, value) := es[0];
      FieldValue(Split(Text(es), ','), name) == value[..UpTo(value, ',')]
  {
    var KeyValue(name, value) := es[0];
    var n := UpTo(value, ',');
    var s := Text(es);
    var m := |name| + 1 + n;
    assert s[..m] == name + "=" + value[..n];
    assert m < |s| ==> s[m] == ',' by {
      if n == |value| && |es| > 1 {
        assert s[m] == Tail(es[1..])[0];
      }
    }
    UpToIs(s, ',', m);
    assert Split(s, ',')[0] == s[..m];
    assert HasField(s[..m], name);
    assert s[..m][|name| + 1..] == value[..n];
  }

  // ----- what is behind a comma -----

  /** The parts of a text behind its first comma. */
  function Later(text: string): seq<string> { Split(text, ',')[1..] }

  /** The parts that entries hold beside those that start with their names. */
  function LaterParts(es: seq<Entry>): seq<string> {
    if es == [] then [] else Later(EntryText(es[0])) + LaterParts(es[1..])
  }

  /** Parts of a joined text are the parts of its two sides. */
  lemma {:induction false} SplitJoined(a: string, b: string)
    ensures Split(a + ("," + b), ',') == Split(a, ',') + Split(b, ',')
    decreases |a|
  {
    hide *;
    var n := UpTo(a, ',');
    if n == |a| {
      FirstPartAlone(a, b);
    } else {
      JoinedAtComma(a, b, n);
      SplitAtComma(a + ("," + b), n);
      SplitAtComma(a, n);
      SplitJoined(a[n + 1..], b);
      Regrouped([a[..n]], Split(a[n + 1..], ','), Split(b, ','));
    }
  }

  lemma Regrouped(a: seq<string>, b: seq<string>, c: seq<string>)
    ensures a + (b + c) == (a + b) + c
  {
  }

  lemma FirstPartAlone(a: string, b: string)
    requires UpTo(a, ',') == |a|
    ensures Split(a + ("," + b), ',') == Split(a, ',') + Split(b, ',')
  {
    assert ',' !in a[..|a|] && a[..|a|] == a;
    assert Split(a, ',') == [a];
    hide *;
    SplitOnce(a, "," + b);
    assert ("," + b)[1..] == b;
  }

  lemma JoinedAtComma(a: string, b: string, n: nat)
    requires n < |a| && UpTo(a, ',') == n
    ensures var s := a + ("," + b);
      UpTo(s, ',') == n && s[..n] == a[..n] && s[n + 1..] == a[n + 1..] + ("," + b)
  {
    assert ',' !in a[..n] && a[n] == ',';
    hide *;
    Slices(a, "," + b, n);
    UpToIs(a + ("," + b), ',', n);
  }

  lemma Slices(a: string, t: string, n: nat)
    requires n < |a|
    ensures n < |a + t| && (a + t)[n] == a[n]
    ensures (a + t)[..n] == a[..n] && (a + t)[n + 1..] == a[n + 1..] + t
  {
  }

  lemma SplitAtComma(s: string, n: nat)
    requires n < |s| && UpTo(s, ',') == n
    ensures Split(s, ',') == [s[..n]] + Split(s[n + 1..], ',')
  {
  }

  lemma {:induction false} FieldValueOfConcat(a: seq<string>, b: seq<string>, c: seq<string>, field: string)
    requires FieldValue(b, field) == FieldValue(c, field)
    ensures FieldValue(a + b, field) == FieldValue(a + c, field)
  {
    hide HasField;
    if a == [] {
      assert a + b == b && a + c == c;
    } else {
      assert (a + b)[1..] == a[1..] + b && (a + c)[1..] == a[1..] + c;
      FieldValueOfConcat(a[1..], b, c, field);
    }
  }

  /** The first part of an entry of another name does not hold the field. */
  lemma FirstPartIsNamed(e: Entry, field: string)
    requires PlainName(e.name) && PlainName(field) && e.name != field
    ensures Split(EntryText(e), ',') == [Split(EntryText(e), ',')[0]] + Later(EntryText(e))
    ensures !HasField(Split(EntryText(e), ',')[0], field)
  {
    var text := EntryText(e);
    var first := Split(text, ',')[0];
    HasFieldIffNamed(e, field);
    hide EntryText, PlainName;
    assert first == text[..UpTo(text, ',')];
    assert HasField(first, field) ==> HasField(text, field);
  }

  /** The parts of a list of entries are those of its first and those of the others. */
  lemma FirstEntryParts(es: seq<Entry>)
    requires es != []
    ensures Split(Text(es), ',')
         == Split(EntryText(es[0]), ',') + (if |es| == 1 then [] else Split(Text(es[1..]), ','))
  {
    hide EntryText, Split;
    var text, rest := EntryText(es[0]), es[1..];
    if rest == [] {
      assert Text(es) == text && Split(text, ',') + [] == Split(text, ',');
    } else {
      assert Text(es) == text + ("," + Text(rest));
      SplitJoined(text, Text(rest));
    }
  }

  lemma SkipFirst(first: string, later: seq<string>, others: seq<string>, rest: seq<string>, field: string)
    requires !HasField(first, field) && FieldValue(others, field) == FieldValue(rest, field)
    ensures FieldValue([first] + later + others, field) == FieldValue(later + rest, field)
  {
    hide HasField;
    assert ([first] + later + others)[0] == first && ([first] + later + others)[1..] == later + others;
    FieldValueOfConcat(later, others, rest, field);
  }

  /** Where no entry has the field's name, the field is looked for behind commas in the values. */
  lemma {:induction false} AbsentIsLookedUp(es: seq<Entry>, field: string)
    requires PlainName(field)
    requires forall e | e in es :: PlainName(e.name) && e.name != field
    ensures FieldValue(Split(Text(es), ','), field) == FieldValue(LaterParts(es), field)
  {
    if es == [] {
      NoPart(field);
    } else {
      assert es[0] in es;
      FirstPartIsNamed(es[0], field);
      FirstEntryParts(es);
      if |es| > 1 {
        AbsentIsLookedUp(es[1..], field);
      }
      hide Text, HasField, EntryText, PlainName, Split, Later;
      var others := if |es| == 1 then [] else Split(Text(es[1..]), ',');
      SkipFirst(Split(EntryText(es[0]), ',')[0], Later(EntryText(es[0])), others, LaterParts(es[1..]), field);
    }
  }

  lemma NoPart(field: string)
    ensures FieldValue(Split(Text([]), ','), field) == FieldValue([], field) == ""
  {
    assert Split("", ',') == [""] && !HasField("", field) && [""][1..] == [];
  }

  lemma {:induction false} LaterPartsOfConcat(a: seq<Entry>, b: seq<Entry>)
    ensures LaterParts(a + b) == LaterParts(a) + LaterParts(b)
  {
    hide Later;
    if a == [] {
      assert a + b == b;
    } else {
      assert (a + b)[1..] == a[1..] + b;
      LaterPartsOfConcat(a[1..], b);
    }
  }

  lemma {:induction false} CleanHasNoLater(es: seq<Entry>)
    requires forall e | e in es :: CleanEntry(e)
    ensures LaterParts(es) == []
  {
    if es != [] {
      var text := EntryText(es[0]);
      assert es[0] in es && ',' !in text && text[..|text|] == text;
      UpToIs(text, ',', |text|);
      CleanHasNoLater(es[1..]);
    }
  }

  /** A name adds no parts to those of the value. */
  lemma LaterOfValue(name: string, value: string)
    requires PlainName(name)
    ensures LaterParts([KeyValue(name, value)]) == Later(value)
  {
    var n, text := UpTo(value, ','), name + "=" + value;
    var m := |name| + 1 + n;
    assert text[..m] == name + "=" + value[..n];
    UpToIs(text, ',', m);
    if n < |value| {
      assert text[m + 1..] == value[n + 1..];
    }
    assert [KeyValue(name, value)][1..] == [];
  }

  // ----- the options -----

  ghost predicate CleanPiece(piece: seq<Entry>) {
    forall e | e in piece :: CleanEntry(e)
  }

  /** Each piece is at most one entry, of the name in its place. */
  ghost predicate WellNamed(pieces: seq<seq<Entry>>) {
    && |pieces| == |NAMES|
    && forall i, e | 0 <= i < |pieces| && e in pieces[i] :: e.name == NAMES[i]
  }

  lemma PiecesAreNamed(cfg: Config, discover: bool)
    ensures WellNamed(Pieces(cfg, discover))
  {
  }

  lemma NamesArePlain(i: nat)
    requires i < |NAMES|
    ensures PlainName(NAMES[i])
  {
    if i < 7 {
      StringNamesArePlain(i);
    } else if i < 10 {
      QueueNamesArePlain(i);
    } else if i < 13 {
      NumberNamesArePlain(i);
    } else {
      LastNamesArePlain(i);
    }
  }

  lemma StringNamesArePlain(i: nat)
    requires i < 7
    ensures PlainName(NAMES[i])
  {
    assert PlainName("nqn") && PlainName("transport") && PlainName("traddr");
    assert PlainName("host_traddr") && PlainName("trsvcid") && PlainName("hostnqn");
    assert PlainName("hostid");
    hide PlainName;
    assert NAMES[i] in ["nqn", "transport", "traddr", "host_traddr", "trsvcid", "hostnqn", "hostid"];
  }

  lemma QueueNamesArePlain(i: nat)
    requires 7 <= i < 10
    ensures PlainName(NAMES[i])
  {
    assert PlainName("nr_io_queues") && PlainName("nr_write_queues") && PlainName("nr_poll_queues");
    hide PlainName;
    assert NAMES[i] in ["nr_io_queues", "nr_write_queues", "nr_poll_queues"];
  }

  lemma NumberNamesArePlain(i: nat)
    requires 10 <= i < 13
    ensures PlainName(NAMES[i])
  {
    assert PlainName("queue_size") && PlainName("keep_alive_tmo") && PlainName("reconnect_delay");
    hide PlainName;
    assert NAMES[i] in ["queue_size", "keep_alive_tmo", "reconnect_delay"];
  }

  lemma LastNamesArePlain(i: nat)
    requires 13 <= i < |NAMES|
    ensures PlainName(NAMES[i])
  {
    assert PlainName("ctrl_loss_tmo") && PlainName("tos") && PlainName("duplicate_connect");
    assert PlainName("disable_sqflow") && PlainName("hdr_digest") && PlainName("data_digest");
    hide PlainName;
    assert NAMES[i] in ["ctrl_loss_tmo", "tos", "duplicate_connect", "disable_sqflow", "hdr_digest",
                        "data_digest"];
  }

  /** No two options have one name: their lengths or their first letters differ. */
  lemma NamesDiffer(i: nat, j: nat)
    requires i < |NAMES| && j < |NAMES| && i != j
    ensures NAMES[i] != NAMES[j]
  {
    NameShape(i);
    NameShape(j);
    hide *;
    assert |NAMES[i]| != |NAMES[j]| || NAMES[i][0] != NAMES[j][0];
  }

  const LENGTHS: seq<nat> := [3, 9, 6, 11, 7, 7, 6, 12, 15, 14, 10, 14, 15, 13, 3, 17, 14, 10, 11]

  lemma NameShape(i: nat)
    requires i < 19
    ensures |NAMES| == 19 && |NAMES[i]| == LENGTHS[i] > 0 && NAMES[i][0] == "ntththhnnnqkrctddhd"[i]
  {
  }

  lemma {:induction false} FlattenAt(pieces: seq<seq<Entry>>, i: nat)
    requires i < |pieces|
    ensures Flatten(pieces) == Flatten(pieces[..i]) + pieces[i] + Flatten(pieces[i + 1..])
  {
    if i == 0 {
      assert pieces[..0] == [];
    } else {
      FlattenAt(pieces[1..], i - 1);
      assert pieces[..i][1..] == pieces[1..][..i - 1];
      assert pieces[1..][i..] == pieces[i + 1..];
    }
  }

  lemma {:induction false} FlattenHolds(pieces: seq<seq<Entry>>, e: Entry) returns (i: nat)
    requires e in Flatten(pieces)
    ensures i < |pieces| && e in pieces[i]
  {
    if e in pieces[0] {
      i := 0;
    } else {
      i := FlattenHolds(pieces[1..], e);
      i := i + 1;
    }
  }

  /** What a field reads as in the string built from `pieces`. */
  function FieldOf(pieces: seq<seq<Entry>>, field: string): string {
    FieldValue(Split(Text(Flatten(pieces)), ','), field)
  }

  /** A present option reads as its value up to the first comma, if no option before it has one. */
  lemma PresentIsRead(pieces: seq<seq<Entry>>, i: nat, value: string)
    requires WellNamed(pieces) && i < |NAMES| && pieces[i] == [KeyValue(NAMES[i], value)]
    requires forall j | 0 <= j < i :: CleanPiece(pieces[j])
    ensures FieldOf(pieces, NAMES[i]) == value[..UpTo(value, ',')]
  {
    var before, e := Flatten(pieces[..i]), KeyValue(NAMES[i], value);
    FlattenAt(pieces, i);
    NamesArePlain(i);
    forall b | b in before
      ensures PlainName(b.name) && b.name != NAMES[i] && CleanEntry(b)
    {
      var j := FlattenHolds(pieces[..i], b);
      assert CleanPiece(pieces[j]);
      NamesArePlain(j);
      NamesDiffer(i, j);
    }
    assert Flatten(pieces) == before + ([e] + Flatten(pieces[i + 1..]));
    FirstOfNameIsRead(before, e, Flatten(pieces[i + 1..]));
  }

  /** An absent option reads as what the host names hold behind their commas, if the options that are
      read back hold none. */
  lemma AbsentIsRead(pieces: seq<seq<Entry>>, i: nat)
    requires WellNamed(pieces) && i < 5 && pieces[i] == []
    requires forall j | 0 <= j < |pieces| && j != 5 && j != 6 :: CleanPiece(pieces[j])
    ensures FieldOf(pieces, NAMES[i])
         == FieldValue(LaterParts(pieces[5]) + LaterParts(pieces[6]), NAMES[i])
  {
    NamesArePlain(i);
    forall e | e in Flatten(pieces)
      ensures PlainName(e.name) && e.name != NAMES[i]
    {
      var j := FlattenHolds(pieces, e);
      NamesArePlain(j);
      NamesDiffer(i, j);
    }
    hide PlainName, Text, Split, LaterParts, HasField;
    AbsentIsLookedUp(Flatten(pieces), NAMES[i]);
    LaterOfPieces(pieces);
  }

  lemma LaterOfPieces(pieces: seq<seq<Entry>>)
    requires |pieces| > 6
    requires forall j | 0 <= j < |pieces| && j != 5 && j != 6 :: CleanPiece(pieces[j])
    ensures LaterParts(Flatten(pieces)) == LaterParts(pieces[5]) + LaterParts(pieces[6])
  {
    hide LaterParts, CleanPiece, Flatten;
    CleanPiecesAreSkipped(pieces, 0, 5);
    LaterOfFirst(pieces, 5);
    LaterOfFirst(pieces, 6);
    CleanPiecesAreSkipped(pieces, 7, |pieces| - 7);
    NoPieces();
    assert pieces[0..] == pieces && pieces[|pieces|..] == [];
  }

  lemma NoPieces()
    ensures LaterParts(Flatten([])) == []
  {
  }

  lemma LaterOfFirst(pieces: seq<seq<Entry>>, k: nat)
    requires k < |pieces|
    ensures LaterParts(Flatten(pieces[k..])) == LaterParts(pieces[k]) + LaterParts(Flatten(pieces[k + 1..]))
  {
    assert pieces[k..][1..] == pieces[k + 1..];
    LaterPartsOfConcat(pieces[k], Flatten(pieces[k + 1..]));
    hide LaterParts;
  }

  lemma {:induction false} CleanPiecesAreSkipped(pieces: seq<seq<Entry>>, from: nat, n: nat)
    requires from + n <= |pieces|
    requires forall j | from <= j < from + n :: CleanPiece(pieces[j])
    ensures LaterParts(Flatten(pieces[from..])) == LaterParts(Flatten(pieces[from + n..]))
    decreases n
  {
    hide LaterParts, Flatten;
    if n > 0 {
      LaterOfFirst(pieces, from);
      CleanHasNoLater(pieces[from]);
      CleanPiecesAreSkipped(pieces, from + 1, n - 1);
    }
  }

  /** The value configured for field number `i`; "none" counts as absent, except for the nqn. */
  function Configured(cfg: Config, i: nat): string
    requires i < 5
  {
    var arg := match i
      case 1 => cfg.transport
      case 2 => cfg.traddr
      case 3 => cfg.hostTraddr
      case 4 => cfg.trsvcid
      case _ => None;
    if i == 0 then cfg.nqn else if arg.Some? && arg.value != "none" then arg.value else ""
  }

  lemma ConfiguredPiece(cfg: Config, discover: bool, i: nat)
    requires i < 5
    ensures var piece, value := Pieces(cfg, discover)[i], Configured(cfg, i);
      && (piece == [KeyValue(NAMES[i], value)] || (piece == [] && value == ""))
      && (CleanPiece(piece) <==> ',' !in value)
  {
    var value := Configured(cfg, i);
    NamesArePlain(i);
    CleanKeyValue(NAMES[i], value);
  }

  lemma CleanKeyValue(name: string, value: string)
    requires PlainName(name)
    ensures CleanPiece([KeyValue(name, value)]) <==> ',' !in value
  {
    var e := KeyValue(name, value);
    var text := EntryText(e);
    assert CleanEntry(e) <==> ',' !in value by {
      if c :| 0 <= c < |value| && value[c] == ',' {
        assert text[|name| + 1 + c] == ',';
      }
    }
    assert e in [e];
  }

  lemma DecimalIsClean(n: int)
    ensures ',' !in Decimal(n)
  {
    DigitsAreDigits(if n < 0 then -n else n);
  }

  lemma CleanFlag(name: string)
    requires PlainName(name)
    ensures CleanPiece([Flag(name)])
  {
  }

  /** A number or a flag never holds a comma. */
  lemma OtherPieceIsClean(name: string, setting: Setting)
    requires PlainName(name) && (setting.Num? || setting.OnOff? || setting.Omitted?)
    ensures CleanPiece(Piece(name, setting))
  {
    if setting.Num? {
      DecimalIsClean(setting.number);
      CleanKeyValue(name, Decimal(setting.number));
    } else {
      CleanFlag(name);
    }
  }

  /** Neither a field nor a host name: a number, a flag, or left out. */
  lemma LaterPieceIsClean(cfg: Config, discover: bool, i: nat)
    requires 7 <= i < |NAMES|
    ensures CleanPiece(Pieces(cfg, discover)[i])
  {
    hide PlainName;
    NamesArePlain(i);
    OtherPieceIsClean(NAMES[i], SettingOf(cfg, discover, i));
  }

  /** The parts of a host name behind its first comma, as far as the name is written. */
  function HostParts(arg: Option<string>): seq<string> {
    if arg.Some? && arg.value != "none" then Later(arg.value) else []
  }

  lemma HostPiece(cfg: Config, discover: bool)
    ensures LaterParts(Pieces(cfg, discover)[5]) == HostParts(cfg.hostnqn)
    ensures LaterParts(Pieces(cfg, discover)[6]) == HostParts(cfg.hostid)
  {
    hide PlainName, Later;
    NamesArePlain(5);
    NamesArePlain(6);
    if cfg.hostnqn.Some? {
      LaterOfValue(NAMES[5], cfg.hostnqn.value);
    }
    if cfg.hostid.Some? {
      LaterOfValue(NAMES[6], cfg.hostid.value);
    }
    hide LaterParts;
  }

  /** Field number `i` is not written. The nqn always is. */
  predicate Absent(cfg: Config, i: nat) {
    var none := (arg: Option<string>) => arg.None? || arg.value == "none";
    match i
    case 1 => none(cfg.transport)
    case 2 => none(cfg.traddr)
    case 3 => none(cfg.hostTraddr)
    case 4 => none(cfg.trsvcid)
    case _ => false
  }

  /** The values that make the five fields read back: no comma in any of them, and behind the commas of
      the host names no absent field with a value. */
  ghost predicate ReadsBack(cfg: Config) {
    && (forall i: nat | i < 5 :: ',' !in Configured(cfg, i))
    && (forall i: nat | i < 5 && Absent(cfg, i) ::
          FieldValue(HostParts(cfg.hostnqn) + HostParts(cfg.hostid), NAMES[i]) == "")
  }

  /** The five fields that do_discover reads are all read back as configured, or empty where absent
      or "none", if and only if none of the configured values holds a comma, and no host name gives an
      absent field a value behind one. */
  lemma ReadBackIff(cfg: Config, discover: bool)
    ensures (forall i: nat | i < 5 ::
              FieldOf(Pieces(cfg, discover), NAMES[i]) == Configured(cfg, i))
       <==> ReadsBack(cfg)
  {
    hide Pieces, Configured, FieldOf, CleanPiece, Absent, HostParts, FieldValue;
    var pieces := Pieces(cfg, discover);
    PiecesAreNamed(cfg, discover);
    forall i: nat | i < 5
      ensures CleanPiece(pieces[i]) <==> ',' !in Configured(cfg, i)
    {
      ConfiguredPiece(cfg, discover, i);
    }
    var k := 0;
    while k < 5 && ',' !in Configured(cfg, k)
      invariant k <= 5 && forall i: nat | i < k :: ',' !in Configured(cfg, i)
    {
      k := k + 1;
    }
    if k < 5 {
      var value := Configured(cfg, k);
      ConfiguredPiece(cfg, discover, k);
      PresentIsRead(pieces, k, value);
      assert UpTo(value, ',') < |value|;
      assert FieldOf(pieces, NAMES[k]) != value;
    } else {
      forall i: nat | i < 5
        ensures FieldOf(pieces, NAMES[i]) == Configured(cfg, i) <==>
          !Absent(cfg, i) || FieldValue(HostParts(cfg.hostnqn) + HostParts(cfg.hostid), NAMES[i]) == ""
      {
        FieldIsRead(cfg, discover, i);
      }
    }
  }

  lemma LaterOfTwo(first: string, second: string)
    requires ',' !in first && ',' !in second
    ensures Later(first + ("," + second)) == [second]
  {
    SplitOnce(first, "," + second);
    assert ("," + second)[1..] == second && second[..|second|] == second;
    UpToIs(second, ',', |second|);
  }

  lemma FirstPartIsRead(parts: seq<string>, field: string, value: string)
    requires parts != [] && parts[0] == field + "=" + value
    ensures FieldValue(parts, field) == value
  {
    assert parts[0][|field| + 1..] == value;
  }

  /** Such a host name: without an address, `h,traddr=x` gives the address `x`. */
  lemma HostNameGivesAddress(cfg: Config, h: string, x: string)
    requires ',' !in h && ',' !in x && x != ""
    requires cfg.traddr.None? && cfg.hostnqn == Some(h + ("," + ("traddr" + "=" + x)))
    ensures !ReadsBack(cfg)
  {
    var second := "traddr" + "=" + x;
    LaterOfTwo(h, second);
    assert (h + ("," + second))[|h|] == ',' && ',' !in "none";
    hide Later, FieldValue, Configured;
    FirstPartIsRead(HostParts(cfg.hostnqn) + HostParts(cfg.hostid), "traddr", x);
    assert NAMES[2] == "traddr" && Absent(cfg, 2);
  }

  /** One field, when no field's value holds a comma. */
  lemma FieldIsRead(cfg: Config, discover: bool, i: nat)
    requires i < 5 && forall j: nat | j < 5 :: ',' !in Configured(cfg, j)
    ensures FieldOf(Pieces(cfg, discover), NAMES[i])
         == if Absent(cfg, i) then FieldValue(HostParts(cfg.hostnqn) + HostParts(cfg.hostid), NAMES[i])
            else Configured(cfg, i)
    ensures Absent(cfg, i) ==> Configured(cfg, i) == ""
  {
    hide Pieces, Configured, FieldOf, CleanPiece, Absent, HostParts, FieldValue, LaterParts;
    var pieces, value := Pieces(cfg, discover), Configured(cfg, i);
    PiecesAreNamed(cfg, discover);
    AbsentPiece(cfg, discover, i);
    forall j: nat | j < |pieces| && j != 5 && j != 6
      ensures CleanPiece(pieces[j])
    {
      if j < 5 {
        ConfiguredPiece(cfg, discover, j);
      } else {
        LaterPieceIsClean(cfg, discover, j);
      }
    }
    if Absent(cfg, i) {
      AbsentIsRead(pieces, i);
      HostPiece(cfg, discover);
    } else {
      PresentIsRead(pieces, i, value);
      assert value[..|value|] == value;
      UpToIs(value, ',', |value|);
    }
  }

  lemma AbsentPiece(cfg: Config, discover: bool, i: nat)
    requires i < 5
    ensures Pieces(cfg, discover)[i] == if Absent(cfg, i) then [] else [KeyValue(NAMES[i], Configured(cfg, i))]
    ensures Absent(cfg, i) ==> Configured(cfg, i) == ""
  {
  }

  /** The part of struct connect_args that do_discover fills in, in the order of `NAMES`. */
  datatype ConnectArgs = ConnectArgs(
    subsysnqn: string, transport: string, traddr: string, hostTraddr: string, trsvcid: string)
  {
    function At(i: nat): string
      requires i < 5
    {
      match i
      case 0 => subsysnqn
      case 1 => transport
      case 2 => traddr
      case 3 => hostTraddr
      case _ => trsvcid
    }
  }

  /** The field reads of do_discover on a string that build_options wrote for `cfg`. */
  method ReadConnectArgs(argstr: string, ghost cfg: Config, ghost discover: bool)
    returns (cargs: ConnectArgs)
    requires argstr == Text(Flatten(Pieces(cfg, discover)))
    ensures cargs.subsysnqn == FieldValue(Split(argstr, ','), "nqn")
    ensures cargs.transport == FieldValue(Split(argstr, ','), "transport")
    ensures cargs.traddr == FieldValue(Split(argstr, ','), "traddr")
    ensures cargs.hostTraddr == FieldValue(Split(argstr, ','), "host_traddr")
    ensures cargs.trsvcid == FieldValue(Split(argstr, ','), "trsvcid")
    ensures (forall i: nat | i < 5 :: cargs.At(i) == Configured(cfg, i)) <==> ReadsBack(cfg)
  {
    hide Text, Flatten, Pieces, Configured, ReadsBack, Split, FieldValue;
    FieldNames();
    ReadBackIff(cfg, discover);
    var subsysnqn := ParseConnArg(argstr, ',', "nqn");
    var transport := ParseConnArg(argstr, ',', "transport");
    var traddr := ParseConnArg(argstr, ',', "traddr");
    var trsvcid := ParseConnArg(argstr, ',', "trsvcid");
    var hostTraddr := ParseConnArg(argstr, ',', "host_traddr");
    cargs := ConnectArgs(subsysnqn, transport, traddr, hostTraddr, trsvcid);
  }

  lemma FieldNames()
    ensures NAMES[..5] == ["nqn", "transport", "traddr", "host_traddr", "trsvcid"]
    ensures NAMES[0] == "nqn" && NAMES[1] == "transport" && NAMES[2] == "traddr"
    ensures NAMES[3] == "host_traddr" && NAMES[4] == "trsvcid"
    ensures forall i | 0 <= i < 5 :: ',' !in NAMES[i]
  {
    forall i | 0 <= i < 5
      ensures ',' !in NAMES[i]
    {
      NamesArePlain(i);
    }
  }

  // ----- every option -----

  function Concat(texts: seq<string>): string {
    if texts == [] then "" else texts[0] + Concat(texts[1..])
  }

  /** The string that build_options writes, option by option. */
  lemma TextOfOptions(cfg: Config, discover: bool)
    ensures Text(Flatten(Pieces(cfg, discover))) == Concat([
      "nqn=" + cfg.nqn,
      if cfg.transport.Some? && cfg.transport.value != "none" then ",transport=" + cfg.transport.value else "",
      if cfg.traddr.Some? && cfg.traddr.value != "none" then ",traddr=" + cfg.traddr.value else "",
      if cfg.hostTraddr.Some? && cfg.hostTraddr.value != "none" then ",host_traddr=" + cfg.hostTraddr.value else "",
      if cfg.trsvcid.Some? && cfg.trsvcid.value != "none" then ",trsvcid=" + cfg.trsvcid.value else "",
      if cfg.hostnqn.Some? && cfg.hostnqn.value != "none" then ",hostnqn=" + cfg.hostnqn.value else "",
      if cfg.hostid.Some? && cfg.hostid.value != "none" then ",hostid=" + cfg.hostid.value else "",
      if cfg.nrIoQueues != 0 && !discover then ",nr_io_queues=" + Decimal(cfg.nrIoQueues) else "",
      if cfg.nrWriteQueues != 0 then ",nr_write_queues=" + Decimal(cfg.nrWriteQueues) else "",
      if cfg.nrPollQueues != 0 then ",nr_poll_queues=" + Decimal(cfg.nrPollQueues) else "",
      if cfg.queueSize != 0 && !discover then ",queue_size=" + Decimal(cfg.queueSize) else "",
      if cfg.keepAliveTmo != 0 && !discover then ",keep_alive_tmo=" + Decimal(cfg.keepAliveTmo) else "",
      if cfg.reconnectDelay != 0 then ",reconnect_delay=" + Decimal(cfg.reconnectDelay) else "",
      if cfg.ctrlLossTmo != 0 then ",ctrl_loss_tmo=" + Decimal(cfg.ctrlLossTmo) else "",
      if cfg.tos != -1 then ",tos=" + Decimal(cfg.tos) else "",
      if cfg.duplicateConnect then ",duplicate_connect" else "",
      if cfg.disableSqflow then ",disable_sqflow" else "",
      if cfg.hdrDigest then ",hdr_digest" else "",
      if cfg.dataDigest then ",data_digest" else ""])
  {
    hide Text, Tail, Pieces, Flatten, Concat, Argument, IntArgument, BoolArgument, Decimal, NAMES;
    var pieces := Pieces(cfg, discover);
    StringPieces(cfg, discover);
    NumberPieces(cfg, discover);
    FirstText(cfg.nqn);
    TextOfPieces(pieces, "nqn=" + cfg.nqn);
    StringTails(cfg, pieces);
    QueueTails(cfg, discover, pieces);
    TimeoutTails(cfg, discover, pieces);
    FlagTails(cfg, pieces);
    TailsAre("nqn=" + cfg.nqn, pieces);
  }

  lemma TailsAre(first: string, pieces: seq<seq<Entry>>)
    requires |pieces| == 19
    ensures [first] + Tails(pieces[1..]) == [
      first, Tail(pieces[1]), Tail(pieces[2]), Tail(pieces[3]), Tail(pieces[4]), Tail(pieces[5]), Tail(pieces[6]),
      Tail(pieces[7]), Tail(pieces[8]), Tail(pieces[9]), Tail(pieces[10]), Tail(pieces[11]), Tail(pieces[12]),
      Tail(pieces[13]), Tail(pieces[14]), Tail(pieces[15]), Tail(pieces[16]), Tail(pieces[17]), Tail(pieces[18])]
  {
    hide Tail;
  }

  function Tails(pieces: seq<seq<Entry>>): seq<string> {
    seq(|pieces|, i requires 0 <= i < |pieces| => Tail(pieces[i]))
  }

  lemma {:induction false} TailOfPieces(pieces: seq<seq<Entry>>)
    ensures Tail(Flatten(pieces)) == Concat(Tails(pieces))
  {
    hide Tail;
    if pieces != [] {
      TailOfPieces(pieces[1..]);
      TailOfConcat(pieces[0], Flatten(pieces[1..]));
      assert Tails(pieces)[1..] == Tails(pieces[1..]);
    } else {
      TailOfNothing();
    }
  }

  lemma TailOfNothing()
    ensures Tail([]) == ""
  {
  }

  lemma TextOfPieces(pieces: seq<seq<Entry>>, first: string)
    requires pieces != [] && pieces[0] != [] && Text(pieces[0]) == first
    ensures Text(Flatten(pieces)) == Concat([first] + Tails(pieces[1..]))
  {
    hide Text, Tail, Tails;
    TextOfConcat(pieces[0], Flatten(pieces[1..]));
    TailOfPieces(pieces[1..]);
    assert ([first] + Tails(pieces[1..]))[1..] == Tails(pieces[1..]);
  }

  lemma FirstText(nqn: string)
    ensures Text([KeyValue("nqn", nqn)]) == "nqn=" + nqn
  {
    assert [KeyValue("nqn", nqn)][1..] == [];
  }

  lemma TailOfArgument(front: string, name: string, arg: Option<string>)
    requires front == "," + name + "="
    ensures Tail(Argument(name, arg)) == if arg.Some? && arg.value != "none" then front + arg.value else ""
  {
    if arg.Some? && arg.value != "none" {
      assert Argument(name, arg)[1..] == [];
    }
  }

  lemma TailOfNumber(front: string, name: string, n: int, allowZero: bool)
    requires front == "," + name + "="
    ensures Tail(IntArgument(name, n, allowZero))
         == if n != (if allowZero then -1 else 0) then front + Decimal(n) else ""
  {
    hide Decimal;
    if n != if allowZero then -1 else 0 {
      assert IntArgument(name, n, allowZero)[1..] == [];
    }
  }

  lemma TailOfFlag(front: string, name: string, on: bool)
    requires front == "," + name
    ensures Tail(BoolArgument(name, on)) == if on then front else ""
  {
    if on {
      assert BoolArgument(name, on)[1..] == [];
    }
  }

  lemma AddressFronts()
    ensures "," + "transport" + "=" == ",transport="
    ensures "," + "traddr" + "=" == ",traddr="
    ensures "," + "host_traddr" + "=" == ",host_traddr="
  {
  }

  lemma IdentityFronts()
    ensures "," + "trsvcid" + "=" == ",trsvcid="
    ensures "," + "hostnqn" + "=" == ",hostnqn="
    ensures "," + "hostid" + "=" == ",hostid="
  {
  }

  lemma QueueFronts()
    ensures "," + "nr_io_queues" + "=" == ",nr_io_queues="
    ensures "," + "nr_write_queues" + "=" == ",nr_write_queues="
  {
  }

  lemma MoreQueueFronts()
    ensures "," + "nr_poll_queues" + "=" == ",nr_poll_queues="
    ensures "," + "queue_size" + "=" == ",queue_size="
  {
  }

  lemma TimeoutFronts()
    ensures "," + "keep_alive_tmo" + "=" == ",keep_alive_tmo="
    ensures "," + "reconnect_delay" + "=" == ",reconnect_delay="
  {
  }

  lemma LastFronts()
    ensures "," + "ctrl_loss_tmo" + "=" == ",ctrl_loss_tmo="
    ensures "," + "tos" + "=" == ",tos="
  {
  }

  lemma StringTails(cfg: Config, pieces: seq<seq<Entry>>)
    requires |pieces| == 19
    requires pieces[1] == Argument("transport", cfg.transport)
    requires pieces[2] == Argument("traddr", cfg.traddr)
    requires pieces[3] == Argument("host_traddr", cfg.hostTraddr)
    requires pieces[4] == Argument("trsvcid", cfg.trsvcid)
    requires pieces[5] == Argument("hostnqn", cfg.hostnqn)
    requires pieces[6] == Argument("hostid", cfg.hostid)
    ensures Tail(pieces[1]) == if cfg.transport.Some? && cfg.transport.value != "none" then ",transport=" + cfg.transport.value else ""
    ensures Tail(pieces[2]) == if cfg.traddr.Some? && cfg.traddr.value != "none" then ",traddr=" + cfg.traddr.value else ""
    ensures Tail(pieces[3]) == if cfg.hostTraddr.Some? && cfg.hostTraddr.value != "none" then ",host_traddr=" + cfg.hostTraddr.value else ""
    ensures Tail(pieces[4]) == if cfg.trsvcid.Some? && cfg.trsvcid.value != "none" then ",trsvcid=" + cfg.trsvcid.value else ""
    ensures Tail(pieces[5]) == if cfg.hostnqn.Some? && cfg.hostnqn.value != "none" then ",hostnqn=" + cfg.hostnqn.value else ""
    ensures Tail(pieces[6]) == if cfg.hostid.Some? && cfg.hostid.value != "none" then ",hostid=" + cfg.hostid.value else ""
  {
    AddressFronts();
    IdentityFronts();
    TailOfArgument(",transport=", "transport", cfg.transport);
    TailOfArgument(",traddr=", "traddr", cfg.traddr);
    TailOfArgument(",host_traddr=", "host_traddr", cfg.hostTraddr);
    TailOfArgument(",trsvcid=", "trsvcid", cfg.trsvcid);
    TailOfArgument(",hostnqn=", "hostnqn", cfg.hostnqn);
    TailOfArgument(",hostid=", "hostid", cfg.hostid);
    hide *;
  }

  lemma QueueTails(cfg: Config, discover: bool, pieces: seq<seq<Entry>>)
    requires |pieces| == 19
    requires pieces[7] == (if discover then [] else IntArgument("nr_io_queues", cfg.nrIoQueues, false))
    requires pieces[8] == IntArgument("nr_write_queues", cfg.nrWriteQueues, false)
    requires pieces[9] == IntArgument("nr_poll_queues", cfg.nrPollQueues, false)
    requires pieces[10] == (if discover then [] else IntArgument("queue_size", cfg.queueSize, false))
    ensures Tail(pieces[7]) == if cfg.nrIoQueues != 0 && !discover then ",nr_io_queues=" + Decimal(cfg.nrIoQueues) else ""
    ensures Tail(pieces[8]) == if cfg.nrWriteQueues != 0 then ",nr_write_queues=" + Decimal(cfg.nrWriteQueues) else ""
    ensures Tail(pieces[9]) == if cfg.nrPollQueues != 0 then ",nr_poll_queues=" + Decimal(cfg.nrPollQueues) else ""
    ensures Tail(pieces[10]) == if cfg.queueSize != 0 && !discover then ",queue_size=" + Decimal(cfg.queueSize) else ""
  {
    QueueFronts();
    MoreQueueFronts();
    TailOfNumber(",nr_io_queues=", "nr_io_queues", cfg.nrIoQueues, false);
    TailOfNumber(",nr_write_queues=", "nr_write_queues", cfg.nrWriteQueues, false);
    TailOfNumber(",nr_poll_queues=", "nr_poll_queues", cfg.nrPollQueues, false);
    TailOfNumber(",queue_size=", "queue_size", cfg.queueSize, false);
    TailOfNothing();
    hide *;
  }

  lemma TimeoutTails(cfg: Config, discover: bool, pieces: seq<seq<Entry>>)
    requires |pieces| == 19
    requires pieces[11] == (if discover then [] else IntArgument("keep_alive_tmo", cfg.keepAliveTmo, false))
    requires pieces[12] == IntArgument("reconnect_delay", cfg.reconnectDelay, false)
    requires pieces[13] == IntArgument("ctrl_loss_tmo", cfg.ctrlLossTmo, false)
    requires pieces[14] == IntArgument("tos", cfg.tos, true)
    ensures Tail(pieces[11]) == if cfg.keepAliveTmo != 0 && !discover then ",keep_alive_tmo=" + Decimal(cfg.keepAliveTmo) else ""
    ensures Tail(pieces[12]) == if cfg.reconnectDelay != 0 then ",reconnect_delay=" + Decimal(cfg.reconnectDelay) else ""
    ensures Tail(pieces[13]) == if cfg.ctrlLossTmo != 0 then ",ctrl_loss_tmo=" + Decimal(cfg.ctrlLossTmo) else ""
    ensures Tail(pieces[14]) == if cfg.tos != -1 then ",tos=" + Decimal(cfg.tos) else ""
  {
    TimeoutFronts();
    LastFronts();
    TailOfNumber(",keep_alive_tmo=", "keep_alive_tmo", cfg.keepAliveTmo, false);
    TailOfNumber(",reconnect_delay=", "reconnect_delay", cfg.reconnectDelay, false);
    TailOfNumber(",ctrl_loss_tmo=", "ctrl_loss_tmo", cfg.ctrlLossTmo, false);
    TailOfNumber(",tos=", "tos", cfg.tos, true);
    TailOfNothing();
    hide *;
  }

  lemma ConnectFronts()
    ensures "," + "duplicate_connect" == ",duplicate_connect"
    ensures "," + "disable_sqflow" == ",disable_sqflow"
  {
  }

  lemma DigestFronts()
    ensures "," + "hdr_digest" == ",hdr_digest"
    ensures "," + "data_digest" == ",data_digest"
  {
  }

  lemma FlagTails(cfg: Config, pieces: seq<seq<Entry>>)
    requires |pieces| == 19
    requires pieces[15] == BoolArgument("duplicate_connect", cfg.duplicateConnect)
    requires pieces[16] == BoolArgument("disable_sqflow", cfg.disableSqflow)
    requires pieces[17] == BoolArgument("hdr_digest", cfg.hdrDigest)
    requires pieces[18] == BoolArgument("data_digest", cfg.dataDigest)
    ensures Tail(pieces[15]) == if cfg.duplicateConnect then ",duplicate_connect" else ""
    ensures Tail(pieces[16]) == if cfg.disableSqflow then ",disable_sqflow" else ""
    ensures Tail(pieces[17]) == if cfg.hdrDigest then ",hdr_digest" else ""
    ensures Tail(pieces[18]) == if cfg.dataDigest then ",data_digest" else ""
  {
    ConnectFronts();
    DigestFronts();
    TailOfFlag(",duplicate_connect", "duplicate_connect", cfg.duplicateConnect);
    TailOfFlag(",disable_sqflow", "disable_sqflow", cfg.disableSqflow);
    TailOfFlag(",hdr_digest", "hdr_digest", cfg.hdrDigest);
    TailOfFlag(",data_digest", "data_digest", cfg.dataDigest);
    hide *;
  }

  /** Neither a field nor a host name holds a comma. */
  ghost predicate NoCommas(cfg: Config) {
    && ',' !in cfg.nqn
    && forall arg | arg in [cfg.transport, cfg.traddr, cfg.hostTraddr, cfg.trsvcid, cfg.hostnqn, cfg.hostid] ::
         arg.Some? ==> ',' !in arg.value
  }

  lemma StringPieceIsClean(name: string, arg: Option<string>)
    requires PlainName(name) && (arg.Some? ==> ',' !in arg.value)
    ensures CleanPiece(Argument(name, arg))
  {
    if arg.Some? {
      CleanKeyValue(name, arg.value);
    }
    hide CleanEntry, PlainName;
  }

  lemma AllAreClean(cfg: Config, discover: bool, i: nat)
    requires NoCommas(cfg) && i < 19
    ensures CleanPiece(Pieces(cfg, discover)[i])
  {
    hide PlainName, CleanPiece, Pieces, Argument, NAMES;
    StringNames();
    if i >= 7 {
      LaterPieceIsClean(cfg, discover, i);
    } else {
      NamesArePlain(i);
      StringPieces(cfg, discover);
      if i == 0 {
        CleanKeyValue("nqn", cfg.nqn);
      } else {
        var args := [cfg.transport, cfg.traddr, cfg.hostTraddr, cfg.trsvcid, cfg.hostnqn, cfg.hostid];
        assert args[i - 1] in args;
        StringPieceIsClean(NAMES[i], args[i - 1]);
      }
    }
  }

  lemma StringNames()
    ensures |NAMES| == 19 && NAMES[..7]
         == ["nqn", "transport", "traddr", "host_traddr", "trsvcid", "hostnqn", "hostid"]
  {
  }

  /** Without commas in them, the entries are the parts. */
  lemma {:induction false} PartsAreEntries(es: seq<Entry>)
    requires es != [] && forall e | e in es :: CleanEntry(e)
    ensures var parts := Split(Text(es), ',');
      |parts| == |es| && forall k | 0 <= k < |es| :: parts[k] == EntryText(es[k])
  {
    hide CleanEntry, EntryText, Text;
    assert es[0] in es;
    TextSplits(es);
    if |es| > 1 {
      PartsAreEntries(es[1..]);
    }
  }

  ghost predicate IsPart(text: string, part: string) {
    part in Split(text, ',')
  }

  ghost predicate HasPart(text: string, field: string) {
    exists part :: IsPart(text, part) && HasField(part, field)
  }

  /** The options, each at most one entry, and without commas in their texts. */
  ghost predicate CleanOptions(pieces: seq<seq<Entry>>) {
    && WellNamed(pieces) && pieces[0] != []
    && forall j | 0 <= j < |pieces| :: CleanPiece(pieces[j]) && |pieces[j]| <= 1
  }

  /** An option with a value has a part; without it no part is of that name. */
  lemma ValuePart(pieces: seq<seq<Entry>>, i: nat)
    requires CleanOptions(pieces) && i < |NAMES|
    ensures HasPart(Text(Flatten(pieces)), NAMES[i]) <==> |pieces[i]| == 1 && pieces[i][0].KeyValue?
  {
    AllEntriesClean(pieces);
    assert |pieces| == |NAMES|;
    hide CleanEntry, EntryText, Text, HasField, IsPart, Flatten, CleanOptions, NAMES;
    var es, name := Flatten(pieces), NAMES[i];
    if HasPart(Text(es), name) {
      var part :| IsPart(Text(es), part) && HasField(part, name);
      EntryIsNamed(pieces, i, PartIsEntry(es, part));
    }
    if |pieces[i]| == 1 {
      EntryInFlat(pieces, i);
      EntryIsNamed(pieces, i, pieces[i][0]);
      EntryIsPart(es, pieces[i][0]);
    }
  }

  /** The name alone is a part exactly for a flag that is set. */
  lemma FlagPart(pieces: seq<seq<Entry>>, i: nat)
    requires CleanOptions(pieces) && i < |NAMES|
    ensures IsPart(Text(Flatten(pieces)), NAMES[i]) <==> |pieces[i]| == 1 && pieces[i][0].Flag?
  {
    AllEntriesClean(pieces);
    assert |pieces| == |NAMES|;
    hide CleanEntry, EntryText, Text, HasField, IsPart, Flatten, CleanOptions, NAMES;
    var es, name := Flatten(pieces), NAMES[i];
    if IsPart(Text(es), name) {
      EntryIsNamed(pieces, i, PartIsEntry(es, name));
    }
    if |pieces[i]| == 1 {
      EntryInFlat(pieces, i);
      EntryIsNamed(pieces, i, pieces[i][0]);
      EntryIsPart(es, pieces[i][0]);
    }
  }

  lemma EntryInFlat(pieces: seq<seq<Entry>>, i: nat)
    requires i < |pieces| && |pieces[i]| == 1
    ensures pieces[i][0] in Flatten(pieces)
  {
    hide Flatten;
    FlattenAt(pieces, i);
  }

  lemma AllEntriesClean(pieces: seq<seq<Entry>>)
    requires CleanOptions(pieces)
    ensures Flatten(pieces) != [] && forall e | e in Flatten(pieces) :: CleanEntry(e)
  {
    hide CleanEntry, Flatten;
    FlattenNonempty(pieces);
    forall e | e in Flatten(pieces)
      ensures CleanEntry(e)
    {
      var j := FlattenHolds(pieces, e);
      assert CleanPiece(pieces[j]);
    }
  }

  ghost function PartIsEntry(es: seq<Entry>, part: string): (e: Entry)
    requires es != [] && (forall e | e in es :: CleanEntry(e)) && IsPart(Text(es), part)
    ensures e in es && EntryText(e) == part
  {
    PartsAreEntries(es);
    var k :| 0 <= k < |es| && EntryText(es[k]) == part;
    es[k]
  }

  lemma EntryIsPart(es: seq<Entry>, e: Entry)
    requires (forall e | e in es :: CleanEntry(e)) && e in es
    ensures IsPart(Text(es), EntryText(e))
  {
    hide CleanEntry, EntryText, Text, Split;
    PartsAreEntries(es);
    var k :| 0 <= k < |es| && es[k] == e;
    assert Split(Text(es), ',')[k] == EntryText(e);
  }

  lemma EntryIsNamed(pieces: seq<seq<Entry>>, i: nat, e: Entry)
    requires CleanOptions(pieces) && i < |NAMES| && e in Flatten(pieces)
    ensures HasField(EntryText(e), NAMES[i]) ==> e.KeyValue? && pieces[i] == [e]
    ensures EntryText(e) == NAMES[i] ==> e.Flag? && pieces[i] == [e]
    ensures pieces[i] == [e] ==> if e.KeyValue? then HasField(EntryText(e), NAMES[i]) else EntryText(e) == NAMES[i]
  {
    hide CleanEntry, EntryText, PlainName, HasField, NAMES;
    var j := FlattenHolds(pieces, e);
    assert CleanPiece(pieces[j]);
    NamesArePlain(i);
    NamesArePlain(j);
    HasFieldIffNamed(e, NAMES[i]);
    FlagIffNamed(e, NAMES[i]);
    if i != j {
      NamesDiffer(i, j);
    }
  }

  lemma FlagIffNamed(e: Entry, name: string)
    requires PlainName(name)
    ensures EntryText(e) == name <==> e == Flag(name)
  {
    if e.KeyValue? {
      assert EntryText(e)[|e.name|] == '=';
    }
  }

  /** An option with a value: it has a part exactly when it is written, and then reads as the value. */
  ghost predicate ReadsAs(text: string, name: string, written: bool, value: string) {
    && (HasPart(text, name) <==> written)
    && FieldValue(Split(text, ','), name) == if written then value else ""
  }

  lemma {:induction false} NoFieldNoValue(parts: seq<string>, field: string)
    requires forall part | part in parts :: !HasField(part, field)
    ensures FieldValue(parts, field) == ""
  {
    hide HasField;
    if parts != [] {
      assert parts[0] in parts;
      NoFieldNoValue(parts[1..], field);
    }
  }

  lemma OptionReads(pieces: seq<seq<Entry>>, i: nat, written: bool, value: string)
    requires CleanOptions(pieces) && i < |NAMES| && ',' !in value
    requires pieces[i] == if written then [KeyValue(NAMES[i], value)] else []
    ensures ReadsAs(Text(Flatten(pieces)), NAMES[i], written, value)
  {
    hide Text, Flatten, Split, HasField, FieldValue, CleanPiece, NAMES;
    var text, name := Text(Flatten(pieces)), NAMES[i];
    ValuePart(pieces, i);
    if written {
      PresentIsRead(pieces, i, value);
      assert value[..|value|] == value;
      UpToIs(value, ',', |value|);
    } else {
      forall part | part in Split(text, ',')
        ensures !HasField(part, name)
      {
        assert IsPart(text, part);
      }
      NoFieldNoValue(Split(text, ','), name);
    }
  }

  lemma OptionsAreClean(cfg: Config, discover: bool)
    requires NoCommas(cfg)
    ensures CleanOptions(Pieces(cfg, discover))
  {
    hide NAMES, CleanPiece;
    StringNames();
    PiecesAreNamed(cfg, discover);
    forall i | 0 <= i < 19
      ensures CleanPiece(Pieces(cfg, discover)[i]) && |Pieces(cfg, discover)[i]| <= 1
    {
      AllAreClean(cfg, discover, i);
    }
  }

  /** The numbers that are read back from the string, without commas in the other values. */
  lemma NumbersReadBack(cfg: Config, discover: bool)
    requires NoCommas(cfg)
    ensures var text := Text(Flatten(Pieces(cfg, discover)));
      && ReadsAs(text, "nr_io_queues", cfg.nrIoQueues != 0 && !discover, Decimal(cfg.nrIoQueues))
      && ReadsAs(text, "nr_write_queues", cfg.nrWriteQueues != 0, Decimal(cfg.nrWriteQueues))
      && ReadsAs(text, "nr_poll_queues", cfg.nrPollQueues != 0, Decimal(cfg.nrPollQueues))
      && ReadsAs(text, "queue_size", cfg.queueSize != 0 && !discover, Decimal(cfg.queueSize))
      && ReadsAs(text, "keep_alive_tmo", cfg.keepAliveTmo != 0 && !discover, Decimal(cfg.keepAliveTmo))
      && ReadsAs(text, "reconnect_delay", cfg.reconnectDelay != 0, Decimal(cfg.reconnectDelay))
      && ReadsAs(text, "ctrl_loss_tmo", cfg.ctrlLossTmo != 0, Decimal(cfg.ctrlLossTmo))
      && ReadsAs(text, "tos", cfg.tos != -1, Decimal(cfg.tos))
  {
    hide ReadsAs, CleanOptions, Pieces, Text, Flatten, Decimal, NAMES;
    var pieces := Pieces(cfg, discover);
    OptionsAreClean(cfg, discover);
    NumberPieces(cfg, discover);
    NumberNames();
    NumberReads(pieces, 7, cfg.nrIoQueues != 0 && !discover, cfg.nrIoQueues);
    NumberReads(pieces, 8, cfg.nrWriteQueues != 0, cfg.nrWriteQueues);
    NumberReads(pieces, 9, cfg.nrPollQueues != 0, cfg.nrPollQueues);
    NumberReads(pieces, 10, cfg.queueSize != 0 && !discover, cfg.queueSize);
    NumberReads(pieces, 11, cfg.keepAliveTmo != 0 && !discover, cfg.keepAliveTmo);
    NumberReads(pieces, 12, cfg.reconnectDelay != 0, cfg.reconnectDelay);
    NumberReads(pieces, 13, cfg.ctrlLossTmo != 0, cfg.ctrlLossTmo);
    NumberReads(pieces, 14, cfg.tos != -1, cfg.tos);
  }

  lemma NumberReads(pieces: seq<seq<Entry>>, i: nat, written: bool, n: int)
    requires CleanOptions(pieces) && i < |NAMES|
    requires pieces[i] == if written then [KeyValue(NAMES[i], Decimal(n))] else []
    ensures ReadsAs(Text(Flatten(pieces)), NAMES[i], written, Decimal(n))
  {
    DecimalIsClean(n);
    hide *;
    OptionReads(pieces, i, written, Decimal(n));
  }

  lemma NumberNames()
    ensures |NAMES| == 19 && NAMES[7..15] == [
      "nr_io_queues", "nr_write_queues", "nr_poll_queues", "queue_size", "keep_alive_tmo",
      "reconnect_delay", "ctrl_loss_tmo", "tos"]
  {
  }

  /** A flag is a part of the string exactly when it is set. */
  lemma FlagsAreParts(cfg: Config, discover: bool)
    requires NoCommas(cfg)
    ensures var text := Text(Flatten(Pieces(cfg, discover)));
      && (IsPart(text, "duplicate_connect") <==> cfg.duplicateConnect)
      && (IsPart(text, "disable_sqflow") <==> cfg.disableSqflow)
      && (IsPart(text, "hdr_digest") <==> cfg.hdrDigest)
      && (IsPart(text, "data_digest") <==> cfg.dataDigest)
  {
    hide IsPart, CleanOptions, Pieces, Text, Flatten, NAMES;
    var pieces := Pieces(cfg, discover);
    OptionsAreClean(cfg, discover);
    NumberPieces(cfg, discover);
    FlagNames();
    FlagPart(pieces, 15);
    FlagPart(pieces, 16);
    FlagPart(pieces, 17);
    FlagPart(pieces, 18);
  }

  lemma FlagNames()
    ensures |NAMES| == 19
    ensures NAMES[15..] == ["duplicate_connect", "disable_sqflow", "hdr_digest", "data_digest"]
  {
  }

  /** The strings, with the host names among them. */
  lemma StringsReadBack(cfg: Config, discover: bool)
    requires NoCommas(cfg)
    ensures var text := Text(Flatten(Pieces(cfg, discover)));
      && ReadsAs(text, "nqn", true, cfg.nqn)
      && StringReads(text, "transport", cfg.transport)
      && StringReads(text, "traddr", cfg.traddr)
      && StringReads(text, "host_traddr", cfg.hostTraddr)
      && StringReads(text, "trsvcid", cfg.trsvcid)
      && StringReads(text, "hostnqn", cfg.hostnqn)
      && StringReads(text, "hostid", cfg.hostid)
  {
    hide ReadsAs, StringReads, CleanOptions, Pieces, Text, Flatten, Argument, NAMES;
    var pieces := Pieces(cfg, discover);
    OptionsAreClean(cfg, discover);
    StringPieces(cfg, discover);
    StringNames();
    OptionReads(pieces, 0, true, cfg.nqn);
    StringIsRead(pieces, 1, cfg.transport);
    StringIsRead(pieces, 2, cfg.traddr);
    StringIsRead(pieces, 3, cfg.hostTraddr);
    StringIsRead(pieces, 4, cfg.trsvcid);
    StringIsRead(pieces, 5, cfg.hostnqn);
    StringIsRead(pieces, 6, cfg.hostid);
  }

  lemma StringIsRead(pieces: seq<seq<Entry>>, i: nat, arg: Option<string>)
    requires CleanOptions(pieces) && i < |NAMES|
    requires pieces[i] == Argument(NAMES[i], arg) && (arg.Some? ==> ',' !in arg.value)
    ensures StringReads(Text(Flatten(pieces)), NAMES[i], arg)
  {
    hide ReadsAs, CleanOptions, Text, Flatten, NAMES;
    if arg.Some? {
      OptionReads(pieces, i, arg.value != "none", arg.value);
    } else {
      OptionReads(pieces, i, false, "");
    }
  }

  /** A string is written, and read back, when it is given and not "none". */
  ghost predicate StringReads(text: string, name: string, arg: Option<string>) {
    match arg
    case None => ReadsAs(text, name, false, "")
    case Some(value) => ReadsAs(text, name, value != "none", value)
  }

  // ----- writing the string -----

  /** The string so far: `n` options written at the front of the buffer, a terminating NUL after
      them, and the rest of the `size` bytes free. */
  ghost predicate Written(buf: array<char>, argstr: nat, maxLen: int, size: nat,
                          pieces: seq<seq<Entry>>, n: nat)
    requires n <= |pieces|
    reads buf
  {
    && size <= buf.Length && argstr < size && argstr + maxLen == size
    && buf[..argstr] == Text(Flatten(pieces[..n])) && buf[argstr] == '\0'
  }

  /** snprintf with room for the text and its NUL.  It fails in no other way. */
  method Snprintf(buf: array<char>, at: nat, maxLen: int, text: string) returns (len: int)
    requires |text| < maxLen && at + maxLen <= buf.Length
    modifies buf
    ensures len == |text|
    ensures buf[..at + |text|] == old(buf[..at]) + text && buf[at + |text|] == '\0'
  {
    forall i | 0 <= i < |text| {
      buf[at + i] := text[i];
    }
    buf[at + |text|] := '\0';
    len := |text|;
  }

  lemma {:induction false} TailOfConcat(a: seq<Entry>, b: seq<Entry>)
    ensures Tail(a + b) == Tail(a) + Tail(b)
  {
    if a == [] {
      assert a + b == b;
    } else {
      assert (a + b)[1..] == a[1..] + b;
      TailOfConcat(a[1..], b);
    }
  }

  lemma TextOfConcat(a: seq<Entry>, b: seq<Entry>)
    requires a != []
    ensures Text(a + b) == Text(a) + Tail(b)
  {
    assert (a + b)[1..] == a[1..] + b;
    TailOfConcat(a[1..], b);
  }

  /** One more option: the text grows by its tail, and still fits if the whole does. */
  lemma NextPiece(pieces: seq<seq<Entry>>, n: nat)
    requires 0 < n < |pieces| && pieces[0] != []
    ensures pieces[n] == [] ==> Text(Flatten(pieces[..n + 1])) == Text(Flatten(pieces[..n]))
    ensures |pieces[n]| == 1 ==>
              Text(Flatten(pieces[..n + 1]))
              == Text(Flatten(pieces[..n])) + ("," + EntryText(pieces[n][0]))
    ensures |Text(Flatten(pieces[..n + 1]))| <= |Text(Flatten(pieces))|
  {
    FlattenAt(pieces, n);
    FlattenAt(pieces[..n + 1], n);
    assert pieces[..n + 1][..n] == pieces[..n] && pieces[..n + 1][n + 1..] == [];
    var done, rest := Flatten(pieces[..n]), Flatten(pieces[n + 1..]);
    FlattenNonempty(pieces[..n]);
    assert Flatten(pieces[..n + 1]) == done + pieces[n];
    TextOfConcat(done, pieces[n]);
    TextOfConcat(done + pieces[n], rest);
    if |pieces[n]| == 1 {
      assert Tail(pieces[n][1..]) == "";
    }
  }

  lemma FlattenNonempty(pieces: seq<seq<Entry>>)
    requires pieces != [] && pieces[0] != []
    ensures Flatten(pieces) != []
  {
  }

  method AddBoolArgument(buf: array<char>, argstr: nat, maxLen: int, name: string, arg: bool,
                         ghost size: nat, ghost pieces: seq<seq<Entry>>, ghost n: nat)
    returns (argstr': nat, maxLen': int)
    requires 0 < n < |pieces| && pieces[0] != [] && pieces[n] == BoolArgument(name, arg)
    requires Written(buf, argstr, maxLen, size, pieces, n) && |Text(Flatten(pieces))| < size
    modifies buf
    ensures Written(buf, argstr', maxLen', size, pieces, n + 1)
  {
    hide Text, Flatten;
    NextPiece(pieces, n);
    argstr', maxLen' := argstr, maxLen;
    if arg {
      var len := Snprintf(buf, argstr, maxLen, "," + name);
      argstr', maxLen' := argstr + len, maxLen - len;
    }
  }

  method AddIntArgument(buf: array<char>, argstr: nat, maxLen: int, name: string, arg: int,
                        allowZero: bool, ghost size: nat, ghost pieces: seq<seq<Entry>>,
                        ghost n: nat)
    returns (argstr': nat, maxLen': int)
    requires 0 < n < |pieces| && pieces[0] != [] && pieces[n] == IntArgument(name, arg, allowZero)
    requires Written(buf, argstr, maxLen, size, pieces, n) && |Text(Flatten(pieces))| < size
    modifies buf
    ensures Written(buf, argstr', maxLen', size, pieces, n + 1)
  {
    hide Text, Flatten;
    NextPiece(pieces, n);
    argstr', maxLen' := argstr, maxLen;
    if (arg != 0 && !allowZero) || (arg != -1 && allowZero) {
      var len := Snprintf(buf, argstr, maxLen, "," + (name + "=" + Decimal(arg)));
      argstr', maxLen' := argstr + len, maxLen - len;
    }
  }

  method AddArgument(buf: array<char>, argstr: nat, maxLen: int, name: string, arg: Option<string>,
                     ghost size: nat, ghost pieces: seq<seq<Entry>>, ghost n: nat)
    returns (argstr': nat, maxLen': int)
    requires 0 < n < |pieces| && pieces[0] != [] && pieces[n] == Argument(name, arg)
    requires Written(buf, argstr, maxLen, size, pieces, n) && |Text(Flatten(pieces))| < size
    modifies buf
    ensures Written(buf, argstr', maxLen', size, pieces, n + 1)
  {
    hide Text, Flatten;
    NextPiece(pieces, n);
    argstr', maxLen' := argstr, maxLen;
    if arg.Some? && arg.value != "none" {
      var len := Snprintf(buf, argstr, maxLen, "," + (name + "=" + arg.value));
      argstr', maxLen' := argstr + len, maxLen - len;
    }
  }

  /** The host identity options fall back to the contents of their files. */
  function WithFiles(cfg: Config, hostnqnFile: Option<string>, hostidFile: Option<string>): Config {
    cfg.(hostnqn := if cfg.hostnqn.Some? then cfg.hostnqn else hostnqnFile,
         hostid := if cfg.hostid.Some? then cfg.hostid else hostidFile)
  }

  const EINVAL := 22

  /** build_options.  `cfg'` is the configuration afterwards: the two files may have been read into
      it. */
  method BuildOptions(buf: array<char>, maxLen: int, cfg: Config, discover: bool,
                      hostnqnFile: Option<string>, hostidFile: Option<string>)
    returns (ret: int, cfg': Config)
    requires |Text(Flatten(Pieces(WithFiles(cfg, hostnqnFile, hostidFile), discover)))| < maxLen
    requires maxLen <= buf.Length
    modifies buf
    ensures ret == 0 || ret == -22
    ensures ret != 0 <==>
              cfg.transport.None? || (cfg.traddr.None? && !("loop" <= cfg.transport.value))
    ensures ret != 0 ==> cfg' == cfg && buf[..] == old(buf[..])
    ensures ret == 0 ==>
              && cfg' == cfg.(hostnqn := if cfg.hostnqn.Some? then cfg.hostnqn else hostnqnFile,
                              hostid := if cfg.hostid.Some? then cfg.hostid else hostidFile)
              && var text := Text(Flatten(Pieces(cfg', discover)));
              && buf[..|text|] == text && buf[|text|] == '\0'
  {
    hide Text, Flatten, Pieces, Written, Argument, IntArgument, BoolArgument;
    ret, cfg' := 0, cfg;
    if cfg.transport.None? {
      return -EINVAL, cfg;
    }
    if !("loop" <= cfg.transport.value) {
      if cfg.traddr.None? {
        return -EINVAL, cfg;
      }
    }
    ghost var all := WithFiles(cfg, hostnqnFile, hostidFile);
    ghost var pieces, size := Pieces(all, discover), maxLen as nat;
    StringPieces(all, discover);
    FirstFits(pieces);
    var len := Snprintf(buf, 0, maxLen, "nqn=" + cfg.nqn);
    var p: nat, m := len, maxLen - len;
    FirstWritten(buf, p, m, size, pieces, cfg.nqn);
    p, m := AddAddresses(buf, p, m, cfg, size, pieces);
    p, m, cfg' := AddIdentity(buf, p, m, cfg, hostnqnFile, hostidFile, size, pieces);
    AddNumbers(buf, p, m, cfg', discover, size);
  }

  /** The four arguments that say where to connect. */
  method AddAddresses(buf: array<char>, argstr: nat, maxLen: int, cfg: Config,
                      ghost size: nat, ghost pieces: seq<seq<Entry>>)
    returns (argstr': nat, maxLen': int)
    requires |pieces| > 5 && pieces[0] != []
    requires pieces[1] == Argument("transport", cfg.transport)
    requires pieces[2] == Argument("traddr", cfg.traddr)
    requires pieces[3] == Argument("host_traddr", cfg.hostTraddr)
    requires pieces[4] == Argument("trsvcid", cfg.trsvcid)
    requires Written(buf, argstr, maxLen, size, pieces, 1) && |Text(Flatten(pieces))| < size
    modifies buf
    ensures Written(buf, argstr', maxLen', size, pieces, 5)
  {
    hide *;
    var p, m := AddArgument(buf, argstr, maxLen, "transport", cfg.transport, size, pieces, 1);
    p, m := AddArgument(buf, p, m, "traddr", cfg.traddr, size, pieces, 2);
    p, m := AddArgument(buf, p, m, "host_traddr", cfg.hostTraddr, size, pieces, 3);
    argstr', maxLen' := AddArgument(buf, p, m, "trsvcid", cfg.trsvcid, size, pieces, 4);
  }

  /** The host identity, from the configuration or else from its file. */
  method AddIdentity(buf: array<char>, argstr: nat, maxLen: int, cfg: Config,
                     hostnqnFile: Option<string>, hostidFile: Option<string>,
                     ghost size: nat, ghost pieces: seq<seq<Entry>>)
    returns (argstr': nat, maxLen': int, cfg': Config)
    requires |pieces| > 7 && pieces[0] != []
    requires pieces[5] == Argument("hostnqn", WithFiles(cfg, hostnqnFile, hostidFile).hostnqn)
    requires pieces[6] == Argument("hostid", WithFiles(cfg, hostnqnFile, hostidFile).hostid)
    requires Written(buf, argstr, maxLen, size, pieces, 5) && |Text(Flatten(pieces))| < size
    modifies buf
    ensures cfg' == WithFiles(cfg, hostnqnFile, hostidFile)
    ensures Written(buf, argstr', maxLen', size, pieces, 7)
  {
    hide Text, Flatten, Written, Argument;
    cfg' := cfg;
    if cfg.hostnqn.None? {
      cfg' := cfg'.(hostnqn := hostnqnFile);
    }
    var p, m := AddArgument(buf, argstr, maxLen, "hostnqn", cfg'.hostnqn, size, pieces, 5);
    if cfg.hostid.None? {
      cfg' := cfg'.(hostid := hostidFile);
    }
    argstr', maxLen' := AddArgument(buf, p, m, "hostid", cfg'.hostid, size, pieces, 6);
  }

  /** The part of build_options after the string arguments. */
  method AddNumbers(buf: array<char>, argstr: nat, maxLen: int, cfg: Config, discover: bool,
                    ghost size: nat)
    requires Written(buf, argstr, maxLen, size, Pieces(cfg, discover), 7)
    requires |Text(Flatten(Pieces(cfg, discover)))| < size
    modifies buf
    ensures var text := Text(Flatten(Pieces(cfg, discover)));
      |text| < buf.Length && buf[..|text|] == text && buf[|text|] == '\0'
  {
    hide Text, Flatten, Pieces, Written, Argument, IntArgument, BoolArgument;
    ghost var pieces := Pieces(cfg, discover);
    StringPieces(cfg, discover);
    NumberPieces(cfg, discover);
    var p, m := argstr, maxLen;
    if !discover {
      p, m := AddIntArgument(buf, p, m, "nr_io_queues", cfg.nrIoQueues, false, size, pieces, 7);
    } else {
      SkipPiece(buf, p, m, size, pieces, 7);
    }
    p, m := AddIntArgument(buf, p, m, "nr_write_queues", cfg.nrWriteQueues, false, size, pieces, 8);
    p, m := AddIntArgument(buf, p, m, "nr_poll_queues", cfg.nrPollQueues, false, size, pieces, 9);
    if !discover {
      p, m := AddIntArgument(buf, p, m, "queue_size", cfg.queueSize, false, size, pieces, 10);
      p, m := AddIntArgument(buf, p, m, "keep_alive_tmo", cfg.keepAliveTmo, false, size, pieces, 11);
    } else {
      SkipPiece(buf, p, m, size, pieces, 10);
      SkipPiece(buf, p, m, size, pieces, 11);
    }
    p, m := AddIntArgument(buf, p, m, "reconnect_delay", cfg.reconnectDelay, false, size, pieces, 12);
    p, m := AddIntArgument(buf, p, m, "ctrl_loss_tmo", cfg.ctrlLossTmo, false, size, pieces, 13);
    p, m := AddIntArgument(buf, p, m, "tos", cfg.tos, true, size, pieces, 14);
    p, m := AddBoolArgument(buf, p, m, "duplicate_connect", cfg.duplicateConnect, size, pieces, 15);
    p, m := AddBoolArgument(buf, p, m, "disable_sqflow", cfg.disableSqflow, size, pieces, 16);
    p, m := AddBoolArgument(buf, p, m, "hdr_digest", cfg.hdrDigest, size, pieces, 17);
    p, m := AddBoolArgument(buf, p, m, "data_digest", cfg.dataDigest, size, pieces, 18);
    AllWritten(buf, p, m, size, pieces);
  }

  lemma StringPieces(cfg: Config, discover: bool)
    ensures var pieces := Pieces(cfg, discover);
      && |pieces| == 19 && pieces[0] == [KeyValue("nqn", cfg.nqn)]
      && pieces[1] == Argument("transport", cfg.transport)
      && pieces[2] == Argument("traddr", cfg.traddr)
      && pieces[3] == Argument("host_traddr", cfg.hostTraddr)
      && pieces[4] == Argument("trsvcid", cfg.trsvcid)
      && pieces[5] == Argument("hostnqn", cfg.hostnqn)
      && pieces[6] == Argument("hostid", cfg.hostid)
  {
    hide Argument;
  }

  lemma NumberPieces(cfg: Config, discover: bool)
    ensures var pieces := Pieces(cfg, discover);
      && |pieces| == 19
      && pieces[7] == (if discover then [] else IntArgument("nr_io_queues", cfg.nrIoQueues, false))
      && pieces[8] == IntArgument("nr_write_queues", cfg.nrWriteQueues, false)
      && pieces[9] == IntArgument("nr_poll_queues", cfg.nrPollQueues, false)
      && pieces[10] == (if discover then [] else IntArgument("queue_size", cfg.queueSize, false))
      && pieces[11] ==
         (if discover then [] else IntArgument("keep_alive_tmo", cfg.keepAliveTmo, false))
      && pieces[12] == IntArgument("reconnect_delay", cfg.reconnectDelay, false)
      && pieces[13] == IntArgument("ctrl_loss_tmo", cfg.ctrlLossTmo, false)
      && pieces[14] == IntArgument("tos", cfg.tos, true)
      && pieces[15] == BoolArgument("duplicate_connect", cfg.duplicateConnect)
      && pieces[16] == BoolArgument("disable_sqflow", cfg.disableSqflow)
      && pieces[17] == BoolArgument("hdr_digest", cfg.hdrDigest)
      && pieces[18] == BoolArgument("data_digest", cfg.dataDigest)
  {
    hide IntArgument, BoolArgument;
  }

  lemma FirstWritten(buf: array<char>, argstr: nat, maxLen: int, size: nat,
                     pieces: seq<seq<Entry>>, nqn: string)
    requires |pieces| > 0 && pieces[0] == [KeyValue("nqn", nqn)]
    requires size <= buf.Length && argstr < size && argstr + maxLen == size
    requires argstr == |"nqn=" + nqn| && buf[..argstr] == "nqn=" + nqn && buf[argstr] == '\0'
    ensures Written(buf, argstr, maxLen, size, pieces, 1)
  {
    assert pieces[..1] == [pieces[0]];
    assert Flatten(pieces[..1]) == pieces[0];
    assert Text(pieces[0]) == "nqn" + "=" + nqn;
  }

  lemma SkipPiece(buf: array<char>, argstr: nat, maxLen: int, size: nat,
                  pieces: seq<seq<Entry>>, n: nat)
    requires 0 < n < |pieces| && pieces[0] != [] && pieces[n] == []
    requires Written(buf, argstr, maxLen, size, pieces, n)
    ensures Written(buf, argstr, maxLen, size, pieces, n + 1)
  {
    NextPiece(pieces, n);
  }

  lemma AllWritten(buf: array<char>, argstr: nat, maxLen: int, size: nat, pieces: seq<seq<Entry>>)
    requires Written(buf, argstr, maxLen, size, pieces, |pieces|)
    ensures var text := Text(Flatten(pieces));
      |text| < buf.Length && buf[..|text|] == text && buf[|text|] == '\0'
  {
    assert pieces[..|pieces|] == pieces;
  }

  /** The first option alone fits where all of them fit. */
  lemma FirstFits(pieces: seq<seq<Entry>>)
    requires |pieces| > 0 && |pieces[0]| == 1
    ensures |EntryText(pieces[0][0])| <= |Text(Flatten(pieces))|
  {
    TextOfConcat(pieces[0], Flatten(pieces[1..]));
  }
}
