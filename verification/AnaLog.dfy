/** Walking an Asymmetric Namespace Access log (nvme-print.c): a header and a number of group
    descriptors, each as long as its own list of namespaces makes it.
 */
module AnaLog {
  import opened Wire

  /** One group; `unused` is what the descriptor reserves. */
  datatype Group = Group(grpid: U32, chgcnt: U64, state: Byte, unused: seq<Byte>, nsids: seq<U32>)

  datatype Log = Log(chgcnt: U64, unused: seq<Byte>, groups: seq<Group>)

  ghost predicate WellFormed(log: Log) {
    && |log.unused| == 6
    && |log.groups| < 0x1_0000
    && forall g | g in log.groups :: |g.unused| == 15 && |g.nsids| < 0x1_0000_0000
  }

  // ----- the layout: section 5.14.1.12 of NVM Express 1.4 -----

  function NsidBytes(nsids: seq<U32>): seq<Byte> {
    if nsids == [] then [] else ToLE(nsids[0], 4) + NsidBytes(nsids[1..])
  }

  function GroupHead(g: Group): seq<Byte> {
    ToLE(g.grpid, 4) + ToLE(|g.nsids|, 4) + ToLE(g.chgcnt, 8) + [g.state] + g.unused
  }

  function GroupBytes(g: Group): seq<Byte> {
    GroupHead(g) + NsidBytes(g.nsids)
  }

  function GroupsBytes(groups: seq<Group>): seq<Byte> {
    if groups == [] then [] else GroupBytes(groups[0]) + GroupsBytes(groups[1..])
  }

  function Serialize(log: Log): seq<Byte> {
    ToLE(log.chgcnt, 8) + ToLE(|log.groups|, 2) + log.unused + GroupsBytes(log.groups)
  }

  /** The length of the descriptors of `groups`. */
  function Size(groups: seq<Group>): nat {
    if groups == [] then 0 else 32 + 4 * |groups[0].nsids| + Size(groups[1..])
  }

  lemma {:induction false} SizeIsLength(groups: seq<Group>)
    requires forall g | g in groups :: |g.unused| == 15
    ensures |GroupsBytes(groups)| == Size(groups)
  {
    if groups != [] {
      var g := groups[0];
      assert g in groups;
      SizeIsLength(groups[1..]);
      NsidBytesLength(g.nsids);
      assert |GroupBytes(g)| == 32 + |NsidBytes(g.nsids)|;
    }
  }

  // ----- reading -----

  function LE(bytes: seq<Byte>, at: nat, width: nat): nat
    requires at + width <= |bytes|
  {
    FromLE(bytes[at..at + width])
  }

  lemma FieldReads(bytes: seq<Byte>, at: nat, n: nat, width: nat)
    requires at + width <= |bytes| && bytes[at..at + width] == ToLE(n, width) && n < Span(width)
    ensures LE(bytes, at, width) == n
  {
    FromToLE(n, width);
  }

  lemma {:induction false} NsidBytesLength(nsids: seq<U32>)
    ensures |NsidBytes(nsids)| == 4 * |nsids|
  {
    if nsids != [] {
      NsidBytesLength(nsids[1..]);
    }
  }

  lemma Behind(front: seq<Byte>, bytes: seq<Byte>, at: nat)
    requires |front| == 4 && at + 4 <= |bytes|
    ensures LE(front + bytes, 4 + at, 4) == LE(bytes, at, 4)
  {
    assert (front + bytes)[4 + at..4 + at + 4] == bytes[at..at + 4];
  }

  /** Namespace `j` of a list is four bytes, `4 * j` bytes into it. */
  lemma {:induction false} NsidReads(nsids: seq<U32>, rest: seq<Byte>, j: nat)
    requires j < |nsids|
    ensures 4 * j + 4 <= |NsidBytes(nsids) + rest|
    ensures LE(NsidBytes(nsids) + rest, 4 * j, 4) == nsids[j]
    decreases j
  {
    var s := NsidBytes(nsids) + rest;
    NsidBytesLength(nsids);
    if j == 0 {
      Spans();
      assert s[0..4] == ToLE(nsids[0], 4);
      FieldReads(s, 0, nsids[0], 4);
    } else {
      var tail := NsidBytes(nsids[1..]) + rest;
      NsidReads(nsids[1..], rest, j - 1);
      NsidBytesLength(nsids[1..]);
      Behind(ToLE(nsids[0], 4), tail, 4 * (j - 1));
      assert s == ToLE(nsids[0], 4) + tail;
    }
  }

  /** The fixed fields of a descriptor at the front of `s`. */
  lemma HeadReads(g: Group, rest: seq<Byte>)
    requires |g.unused| == 15 && |g.nsids| < 0x1_0000_0000
    ensures var s := GroupHead(g) + rest;
      && |GroupHead(g)| == 32
      && LE(s, 0, 4) == g.grpid && LE(s, 4, 4) == |g.nsids| && LE(s, 8, 8) == g.chgcnt
      && s[16] == g.state
  {
    Spans();
    var s := GroupHead(g) + rest;
    assert s[0..4] == ToLE(g.grpid, 4);
    assert s[4..8] == ToLE(|g.nsids|, 4);
    assert s[8..16] == ToLE(g.chgcnt, 8);
    FieldReads(s, 0, g.grpid, 4);
    FieldReads(s, 4, |g.nsids|, 4);
    FieldReads(s, 8, g.chgcnt, 8);
  }

  lemma Shifted(bytes: seq<Byte>, offset: nat, at: nat, width: nat)
    requires offset + at + width <= |bytes|
    ensures LE(bytes, offset + at, width) == LE(bytes[offset..], at, width)
  {
    assert bytes[offset + at..offset + at + width] == bytes[offset..][at..at + width];
  }

  // ----- the walk -----

  /** What is printed for one group. */
  datatype Shown = Shown(grpid: nat, nnsids: nat, chgcnt: nat, state: nat, nsids: seq<nat>)

  function Show(g: Group): Shown {
    Shown(g.grpid, |g.nsids|, g.chgcnt, g.state, g.nsids)
  }

  /** Printing the namespaces of the descriptor at `offset`. */
  method WalkNsids(bytes: seq<Byte>, offset: nat, ghost g: Group, ghost rest: seq<Byte>)
    returns (nsids: seq<nat>)
    requires offset <= |bytes| && bytes[offset..] == GroupBytes(g) + rest
    requires |g.unused| == 15 && |g.nsids| < 0x1_0000_0000
    ensures nsids == g.nsids
  {
    HeadReads(g, NsidBytes(g.nsids) + rest);
    assert GroupBytes(g) + rest == GroupHead(g) + (NsidBytes(g.nsids) + rest);
    NsidBytesLength(g.nsids);
    Shifted(bytes, offset, 4, 4);
    ghost var list := bytes[offset + 32..];
    assert list == bytes[offset..][32..] == NsidBytes(g.nsids) + rest;
    hide LE, GroupHead, GroupBytes;
    nsids := [];
    var j := 0;
    while j < LE(bytes, offset + 4, 4)
      invariant j <= |g.nsids| && nsids == g.nsids[..j]
    {
      NsidReads(g.nsids, rest, j);
      Shifted(bytes, offset + 32, 4 * j, 4);
      nsids := nsids + [LE(bytes, offset + 32 + 4 * j, 4)];
      j := j + 1;
    }
  }

  /** The groups with the offsets of their descriptors, the first one at `from`. */
  function Placed(groups: seq<Group>, from: nat): seq<(nat, Shown)> {
    if groups == [] then [] else
    [(from, Show(groups[0]))] + Placed(groups[1..], from + 32 + 4 * |groups[0].nsids|)
  }

  /** Each group is placed behind all the variable-length descriptors before it. */
  lemma {:induction false} PlacedAt(groups: seq<Group>, from: nat, i: nat)
    requires i < |groups|
    ensures |Placed(groups, from)| == |groups|
    ensures var g := groups[i];
            Placed(groups, from)[i] ==
              (from + Size(groups[..i]), Shown(g.grpid, |g.nsids|, g.chgcnt, g.state, g.nsids))
  {
    if |groups| > 1 {
      PlacedAt(groups[1..], from + 32 + 4 * |groups[0].nsids|, if i == 0 then 0 else i - 1);
    }
    if i > 0 {
      assert groups[..i][1..] == groups[1..][..i - 1];
    }
  }

  /** One turn of the walk: the descriptor at `offset`, and the offset after it. */
  method ShowGroup(bytes: seq<Byte>, offset: nat, ghost log: Log, ghost i: nat, ghost rest: seq<Byte>)
    returns (line: Shown, next: nat)
    requires WellFormed(log) && i < |log.groups| && offset <= |bytes| < 0x8000_0000
    requires bytes[offset..] == GroupsBytes(log.groups[i..]) + rest
    ensures line == Show(log.groups[i])
    ensures var g := log.groups[i]; line == Shown(g.grpid, |g.nsids|, g.chgcnt, g.state, g.nsids)
    ensures next == offset + 32 + 4 * |log.groups[i].nsids| <= |bytes|
    ensures bytes[next..] == GroupsBytes(log.groups[i + 1..]) + rest
  {
    hide LE, GroupBytes, GroupsBytes, WellFormed, Show;
    ghost var g, after := log.groups[i], GroupsBytes(log.groups[i + 1..]) + rest;
    NextGroup(bytes, offset, log, i, rest);
    var nrNsids := LE(bytes, offset + 4, 4);
    var nsidBufSize := 4 * nrNsids;
    next := offset + 32;
    var nsids := WalkNsids(bytes, offset, g, after);
    line := Shown(LE(bytes, offset, 4), nrNsids, LE(bytes, offset + 8, 8), bytes[offset + 16], nsids);
    ShowIs(g, line);
    next := next + nsidBufSize;
  }

  lemma PlacedUnfolds(groups: seq<Group>, from: nat, i: nat)
    requires i < |groups|
    ensures Placed(groups[i..], from)
         == [(from, Show(groups[i]))] + Placed(groups[i + 1..], from + 32 + 4 * |groups[i].nsids|)
  {
    assert groups[i..][1..] == groups[i + 1..];
  }

  /** nvme_show_ana_log, from the header on: the groups shown, each with its descriptor's offset, which
      the source keeps in an int. */
  method ShowAnaLog(bytes: seq<Byte>, ghost log: Log, ghost rest: seq<Byte>)
    returns (shown: seq<(nat, Shown)>)
    requires WellFormed(log) && bytes == Serialize(log) + rest && |bytes| < 0x8000_0000
    ensures shown == Placed(log.groups, 16)
  {
    hide *;
    HeaderReads(log, rest);
    var offset: nat := 16;
    shown := [];
    var i := 0;
    while i < LE(bytes, 8, 2)
      invariant i <= |log.groups| && offset <= |bytes|
      invariant bytes[offset..] == GroupsBytes(log.groups[i..]) + rest
      invariant shown + Placed(log.groups[i..], offset) == Placed(log.groups, 16)
    {
      PlacedUnfolds(log.groups, offset, i);
      var line, next := ShowGroup(bytes, offset, log, i, rest);
      shown := shown + [(offset, line)];
      offset := next;
      i := i + 1;
    }
    NothingPlaced(log.groups, offset);
  }

  lemma NothingPlaced(groups: seq<Group>, from: nat)
    ensures Placed(groups[|groups|..], from) == []
  {
  }

  lemma ShowIs(g: Group, line: Shown)
    requires line == Shown(g.grpid, |g.nsids|, g.chgcnt, g.state, g.nsids)
    ensures Show(g) == line
  {
  }

  lemma HeaderReads(log: Log, rest: seq<Byte>)
    requires WellFormed(log)
    ensures var s := Serialize(log) + rest;
      && |s| >= 16 && LE(s, 8, 2) == |log.groups|
      && s[16..] == GroupsBytes(log.groups[0..]) + rest
  {
    Spans();
    var s := Serialize(log) + rest;
    assert s[8..10] == ToLE(|log.groups|, 2);
    FieldReads(s, 8, |log.groups|, 2);
    assert log.groups[0..] == log.groups;
  }

  /** The fields of the descriptor at `offset`, and what is behind its namespaces. */
  lemma GroupAt(bytes: seq<Byte>, offset: nat, g: Group, after: seq<Byte>)
    requires offset <= |bytes| && bytes[offset..] == GroupBytes(g) + after
    requires |g.unused| == 15 && |g.nsids| < 0x1_0000_0000
    ensures offset + 32 + 4 * |g.nsids| <= |bytes|
    ensures LE(bytes, offset, 4) == g.grpid && LE(bytes, offset + 4, 4) == |g.nsids|
    ensures LE(bytes, offset + 8, 8) == g.chgcnt && bytes[offset + 16] == g.state
    ensures bytes[offset + 32 + 4 * |g.nsids|..] == after
  {
    var s := bytes[offset..];
    assert s == GroupHead(g) + (NsidBytes(g.nsids) + after);
    HeadReads(g, NsidBytes(g.nsids) + after);
    NsidBytesLength(g.nsids);
    Shifted(bytes, offset, 0, 4);
    Shifted(bytes, offset, 4, 4);
    Shifted(bytes, offset, 8, 8);
    hide LE, GroupHead, NsidBytes, ToLE;
    assert bytes[offset + 16] == s[16];
    assert bytes[offset + 32 + 4 * |g.nsids|..] == s[32 + 4 * |g.nsids|..] == after;
  }

  /** The descriptor that the walk has reached is the next group's, and the one after it starts where
      its namespaces end. */
  lemma NextGroup(bytes: seq<Byte>, offset: nat, log: Log, i: nat, rest: seq<Byte>)
    requires WellFormed(log) && i < |log.groups| && offset <= |bytes|
    requires bytes[offset..] == GroupsBytes(log.groups[i..]) + rest
    ensures var g, after := log.groups[i], GroupsBytes(log.groups[i + 1..]) + rest;
      && bytes[offset..] == GroupBytes(g) + after
      && |g.unused| == 15 && |g.nsids| < 0x1_0000_0000
      && offset + 32 + 4 * |g.nsids| <= |bytes|
      && LE(bytes, offset, 4) == g.grpid && LE(bytes, offset + 4, 4) == |g.nsids|
      && LE(bytes, offset + 8, 8) == g.chgcnt && bytes[offset + 16] == g.state
      && bytes[offset + 32 + 4 * |g.nsids|..] == after
  {
    hide GroupBytes, LE;
    var g, after := log.groups[i], GroupsBytes(log.groups[i + 1..]) + rest;
    assert g in log.groups;
    assert log.groups[i..][1..] == log.groups[i + 1..];
    assert bytes[offset..] == GroupBytes(g) + after;
    GroupAt(bytes, offset, g, after);
  }
}
