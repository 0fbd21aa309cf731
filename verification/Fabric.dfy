/** Listing the NVMe namespaces behind a Switchtec PAX fabric (plugins/microchip/switchtec-nvme.c).

    The listing selects one PAX after another, collects the NVMe physical functions of its endpoint
    ports, and asks each for its namespaces through a management tunnel, which it enables first and
    disables afterwards where it reports to be disabled.  What the fabric answers is a parameter,
    failures included; it stays the same during one listing.
 */
module Fabric {
  import opened Basics
  import opened Wire

  datatype PaxId = Local | Pax(index: nat)

  datatype Tunnel = Disabled | Enabled

  /** A function, by the PAX that lists it and its identifier there. */
  datatype Endpoint = Endpoint(pax: nat, pdfid: U16)

  /** switchtec_gfms_db_ep_port_attached_device_function. */
  datatype Function = Function(sriovCapPf: U8, deviceClass: U32, pdfid: U16)

  /** switchtec_gfms_db_ep_port: an endpoint, a switch with endpoints behind it, or anything else. */
  datatype EpPort = EpPort(ep: seq<Function>) | SwitchPort(eps: seq<seq<Function>>) | OtherPort

  /** What the calls into the fabric answer. */
  datatype Answers = Answers(
    selectable: PaxId -> bool,
    topologyKnown: bool, routePort: nat -> U8,
    generalKnown: bool, ownIndex: nat, reachableByUnicast: nat -> bool,
    dump: nat -> Option<seq<EpPort>>,
    statusKnown: Endpoint -> bool, canEnable: Endpoint -> bool, canDisable: Endpoint -> bool,
    namespaces: Endpoint -> Option<seq<U32>>)

  // ----- what a listing visits -----

  predicate IsNvmePf(f: Function) {
    f.sriovCapPf == 0x3 && f.deviceClass == 0x01_0802
  }

  /** The NVMe physical functions among `fs`, in order. */
  function NvmePfs(fs: seq<Function>): seq<Function> {
    if fs == [] then []
    else NvmePfs(fs[..|fs| - 1]) + if IsNvmePf(fs[|fs| - 1]) then [fs[|fs| - 1]] else []
  }

  function SwitchPfs(eps: seq<seq<Function>>): seq<Function> {
    if eps == [] then [] else SwitchPfs(eps[..|eps| - 1]) + NvmePfs(eps[|eps| - 1])
  }

  function PortPfs(port: EpPort): seq<Function> {
    match port
    case EpPort(ep) => NvmePfs(ep)
    case SwitchPort(eps) => SwitchPfs(eps)
    case OtherPort => []
  }

  function PortsPfs(ports: seq<EpPort>): seq<Function> {
    if ports == [] then [] else PortsPfs(ports[..|ports| - 1]) + PortPfs(ports[|ports| - 1])
  }

  /** The functions that the listing finds on a PAX. */
  function PaxPfs(answers: Answers, i: nat): seq<Function> {
    var reached := i == answers.ownIndex || (answers.routePort(i) != 0xff && answers.reachableByUnicast(i));
    if reached && answers.selectable(Pax(i)) && answers.dump(i).Some?
    then PortsPfs(answers.dump(i).value) else []
  }

  function Endpoints(i: nat, fs: seq<Function>): (es: seq<Endpoint>)
    ensures |es| == |fs|
  {
    if fs == [] then [] else Endpoints(i, fs[..|fs| - 1]) + [Endpoint(i, fs[|fs| - 1].pdfid)]
  }

  /** The endpoints visited on the first `n` PAXes. */
  function Visited(answers: Answers, n: nat): seq<Endpoint> {
    if n == 0 then [] else Visited(answers, n - 1) + Endpoints(n - 1, PaxPfs(answers, n - 1))
  }

  // ----- what a visit does -----

  /** The tunnels that are enabled, and the status last read into the device's record. */
  datatype State = State(enabled: set<Endpoint>, status: Tunnel)
  {
    /** switchtec_ep_tunnel_status; a failed query leaves the status of the endpoint before. */
    function Queried(answers: Answers, e: Endpoint): State {
      if answers.statusKnown(e) then this.(status := if e in enabled then Enabled else Disabled) else this
    }

    function Opened(answers: Answers, e: Endpoint): State {
      if status == Disabled && answers.canEnable(e) then this.(enabled := enabled + {e}) else this
    }

    function Closed(answers: Answers, e: Endpoint): State {
      if status == Disabled && answers.canDisable(e) then this.(enabled := enabled - {e}) else this
    }
  }

  function Open(answers: Answers, s: State, e: Endpoint): State {
    s.Queried(answers, e).Opened(answers, e)
  }

  function Visit(answers: Answers, s: State, e: Endpoint): State {
    Open(answers, s, e).Closed(answers, e)
  }

  function VisitAll(answers: Answers, s: State, es: seq<Endpoint>): State {
    if es == [] then s else Visit(answers, VisitAll(answers, s, es[..|es| - 1]), es[|es| - 1])
  }

  /** The entries of an identifier list that are in use. */
  function InUse(nsList: seq<U32>): seq<int> {
    if nsList == [] then []
    else InUse(nsList[..|nsList| - 1]) + if nsList[|nsList| - 1] != 0 then [ToInt(nsList[|nsList| - 1])] else []
  }

  /** The namespaces an endpoint reports with these tunnels open. */
  function Reported(answers: Answers, enabled: set<Endpoint>, e: Endpoint): seq<int> {
    if e in enabled && answers.namespaces(e).Some? then InUse(answers.namespaces(e).value) else []
  }

  /** The namespaces listed while visiting `es` one after another. */
  function Listed(answers: Answers, s: State, es: seq<Endpoint>): seq<int> {
    if es == [] then [] else
      var before := VisitAll(answers, s, es[..|es| - 1]);
      var e := es[|es| - 1];
      Listed(answers, s, es[..|es| - 1]) + Reported(answers, Open(answers, before, e).enabled, e)
  }

  /** One visit, step by step: a failed query leaves the status of the endpoint before, and only a tunnel
      with the status "disabled" is enabled before the listing and disabled after it. */
  lemma VisitIs(answers: Answers, s: State, e: Endpoint)
    ensures var before, after := Open(answers, s, e), Visit(answers, s, e);
            var off := if answers.statusKnown(e) then e !in s.enabled else s.status == Disabled;
      && (after.status == Disabled <==> off)
      && (e in before.enabled <==> e in s.enabled || (off && answers.canEnable(e)))
      && (e in after.enabled <==>
            (e in s.enabled || (off && answers.canEnable(e))) && !(off && answers.canDisable(e)))
      && forall other | other != e ::
           && (other in before.enabled <==> other in s.enabled)
           && (other in after.enabled <==> other in s.enabled)
  {
  }

  /** An endpoint's namespaces are listed through an enabled tunnel only, those in use, in order. */
  lemma ReportedIs(answers: Answers, enabled: set<Endpoint>, e: Endpoint)
    ensures Reported(answers, enabled, e)
         == if e in enabled && answers.namespaces(e).Some? then NonZero(answers.namespaces(e).value) else []
  {
    if answers.namespaces(e).Some? {
      InUseIsNonZero(answers.namespaces(e).value);
    }
  }

  // ----- tunnels are restored -----

  /** A visit can be counted on to leave the tunnel as it was. */
  predicate Restorable(answers: Answers, e: Endpoint) {
    if answers.statusKnown(e) then answers.canEnable(e) ==> answers.canDisable(e)
    else !answers.canEnable(e) && !answers.canDisable(e)
  }

  predicate AllRestorable(answers: Answers, es: seq<Endpoint>) {
    forall i | 0 <= i < |es| :: Restorable(answers, es[i])
  }

  lemma {:induction false} Restores(answers: Answers, s: State, es: seq<Endpoint>)
    requires AllRestorable(answers, es)
    ensures VisitAll(answers, s, es).enabled == s.enabled
  {
    if es != [] {
      var e := es[|es| - 1];
      Restores(answers, s, es[..|es| - 1]);
      assert Restorable(answers, e);
    }
  }

  /** An endpoint left open by mistake stays open, and one left closed stays closed. */
  lemma {:induction false} MistakeStays(answers: Answers, s: State, es: seq<Endpoint>, e: Endpoint)
    ensures e in s.enabled && !answers.canDisable(e) ==> e in VisitAll(answers, s, es).enabled
    ensures e !in s.enabled && answers.canDisable(e) ==> e !in VisitAll(answers, s, es).enabled
  {
    if es != [] {
      MistakeStays(answers, s, es[..|es| - 1], e);
    }
  }

  lemma {:induction false} VisitAllAppends(answers: Answers, s: State, before: seq<Endpoint>, after: seq<Endpoint>)
    ensures VisitAll(answers, s, before + after) == VisitAll(answers, VisitAll(answers, s, before), after)
  {
    var es := before + after;
    if after == [] {
      assert es == before;
    } else {
      VisitAllAppends(answers, s, before, after[..|after| - 1]);
      assert es[..|es| - 1] == before + after[..|after| - 1];
    }
  }

  lemma {:induction false} StatusStaysDisabled(answers: Answers, s: State, es: seq<Endpoint>)
    requires s.status == Disabled && AllRestorable(answers, es)
    requires forall i | 0 <= i < |es| && answers.statusKnown(es[i]) :: es[i] !in s.enabled
    ensures VisitAll(answers, s, es).status == Disabled
  {
    if es != [] {
      StatusStaysDisabled(answers, s, es[..|es| - 1]);
      Restores(answers, s, es[..|es| - 1]);
    }
  }

  /** A visit that cannot be counted on goes wrong for some state of the tunnels. */
  lemma MistakeHappens(answers: Answers, before: seq<Endpoint>, e: Endpoint, after: seq<Endpoint>)
    requires AllRestorable(answers, before) && !Restorable(answers, e)
    ensures exists s: State :: VisitAll(answers, s, before + [e] + after).enabled != s.enabled
  {
    var open := !answers.statusKnown(e) && answers.canDisable(e);
    var s := State(if open then {e} else {}, Disabled);
    var here := VisitAll(answers, s, before);
    Restores(answers, s, before);
    StatusStaysDisabled(answers, s, before);
    VisitAllAppends(answers, s, before, [e]);
    VisitAllAppends(answers, s, before + [e], after);
    var there := VisitAll(answers, s, before + [e]);
    assert there == Visit(answers, here, e) by {
      assert [e][..0] == [];
      assert VisitAll(answers, here, [e]) == Visit(answers, VisitAll(answers, here, []), e);
    }
    assert e in there.enabled <==> !open;
    MistakeStays(answers, there, after, e);
    assert e in VisitAll(answers, s, before + [e] + after).enabled <==> e !in s.enabled;
  }

  /** Every tunnel returns to its prior state, whatever the tunnels and the record held before,
      exactly when for each endpoint visited the status can be read, and the tunnel disabled if it
      can be enabled; or the status cannot be read and the tunnel can be neither. */
  lemma TunnelsRestoredIff(answers: Answers, es: seq<Endpoint>)
    ensures (forall s: State :: VisitAll(answers, s, es).enabled == s.enabled) <==> AllRestorable(answers, es)
  {
    if AllRestorable(answers, es) {
      forall s: State
        ensures VisitAll(answers, s, es).enabled == s.enabled
      {
        Restores(answers, s, es);
      }
    } else {
      var k := FirstMistake(answers, es);
      MistakeHappens(answers, es[..k], es[k], es[k + 1..]);
      assert es[..k] + [es[k]] + es[k + 1..] == es;
    }
  }

  lemma {:induction false} FirstMistake(answers: Answers, es: seq<Endpoint>) returns (k: nat)
    requires !AllRestorable(answers, es)
    ensures k < |es| && !Restorable(answers, es[k]) && AllRestorable(answers, es[..k])
  {
    var front := es[..|es| - 1];
    if AllRestorable(answers, front) {
      k := |es| - 1;
    } else {
      k := FirstMistake(answers, front);
      assert es[..k] == front[..k];
    }
  }

  // ----- the order of the listing -----

  /** The namespaces of the endpoints of `es` whose tunnels are or can be enabled, one endpoint
      after another, each in the order it reports them. */
  function InOrder(answers: Answers, enabled: set<Endpoint>, es: seq<Endpoint>): seq<int> {
    if es == [] then [] else
      var e := es[|es| - 1];
      InOrder(answers, enabled, es[..|es| - 1])
      + Reported(answers, if answers.canEnable(e) then enabled + {e} else enabled, e)
  }

  lemma {:induction false} ListedInOrder(answers: Answers, s: State, es: seq<Endpoint>)
    requires AllRestorable(answers, es)
    ensures Listed(answers, s, es) == InOrder(answers, s.enabled, es)
  {
    if es != [] {
      var e := es[|es| - 1];
      ListedInOrder(answers, s, es[..|es| - 1]);
      Restores(answers, s, es[..|es| - 1]);
      assert Restorable(answers, e);
    }
  }

  lemma {:induction false} ListedAppends(answers: Answers, s: State, before: seq<Endpoint>, after: seq<Endpoint>)
    ensures Listed(answers, s, before + after)
         == Listed(answers, s, before) + Listed(answers, VisitAll(answers, s, before), after)
  {
    hide VisitAll, Open, Reported;
    var es := before + after;
    if after == [] {
      assert es == before;
    } else {
      var front := after[..|after| - 1];
      ListedAppends(answers, s, before, front);
      VisitAllAppends(answers, s, before, front);
      assert es[..|es| - 1] == before + front && es[|es| - 1] == after[|after| - 1];
    }
  }

  // ----- the device -----

  /** pax_nvme_device, with the fabric it drives. */
  class PaxDevice {
    const answers: Answers
    var selected: PaxId
    var enabled: set<Endpoint>
    var channelStatus: Tunnel
    var pdfid: U16
    var nsId: U32

    constructor (answers: Answers, selected: PaxId, enabled: set<Endpoint>)
      ensures this.answers == answers && this.selected == selected && this.enabled == enabled
    {
      this.answers, this.selected, this.enabled := answers, selected, enabled;
      channelStatus, pdfid, nsId := Disabled, 0, 0;
    }

    function Now(): State
      reads this
    {
      State(enabled, channelStatus)
    }

    /** The endpoint the next commands go to. */
    function Target(): Endpoint
      reads this
    {
      Endpoint(if selected.Pax? then selected.index else 0, pdfid)
    }

    /** switchtec_set_pax_id. */
    method SetPaxId(id: PaxId) returns (ok: bool)
      modifies this`selected
      ensures ok == answers.selectable(id)
      ensures selected == if ok then id else old(selected)
    {
      ok := answers.selectable(id);
      if ok {
        selected := id;
      }
    }

    /** switchtec_ep_tunnel_status into the record. */
    method QueryTunnel()
      modifies this`channelStatus
      ensures Now() == old(Now()).Queried(answers, Target())
    {
      if answers.statusKnown(Target()) {
        channelStatus := if Target() in enabled then Enabled else Disabled;
      }
    }

    method EnableTunnel()
      modifies this`enabled
      ensures enabled == if answers.canEnable(Target()) then old(enabled) + {Target()} else old(enabled)
    {
      if answers.canEnable(Target()) {
        enabled := enabled + {Target()};
      }
    }

    method DisableTunnel()
      modifies this`enabled
      ensures enabled == if answers.canDisable(Target()) then old(enabled) - {Target()} else old(enabled)
    {
      if answers.canDisable(Target()) {
        enabled := enabled - {Target()};
      }
    }

    /** nvme_identify_ns_list, which needs an open tunnel. */
    method IdentifyNsList() returns (nsList: Option<seq<U32>>)
      ensures nsList == if Target() in enabled then answers.namespaces(Target()) else None
    {
      nsList := if Target() in enabled then answers.namespaces(Target()) else None;
    }
  }

  // ----- collecting functions -----

  lemma {:induction false} NvmePfsGrows(fs: seq<Function>, k: nat)
    requires k <= |fs|
    ensures NvmePfs(fs[..k]) <= NvmePfs(fs)
  {
    if k == |fs| {
      assert fs[..k] == fs;
    } else {
      NvmePfsGrows(fs[..|fs| - 1], k);
      assert fs[..|fs| - 1][..k] == fs[..k];
    }
  }

  lemma NvmePfsStep(fs: seq<Function>, j: nat)
    requires j < |fs|
    ensures NvmePfs(fs[..j + 1]) == NvmePfs(fs[..j]) + if IsNvmePf(fs[j]) then [fs[j]] else []
    ensures NvmePfs(fs[..j + 1]) <= NvmePfs(fs)
  {
    assert fs[..j + 1][..j] == fs[..j];
    NvmePfsGrows(fs, j + 1);
  }

  lemma NoNvmePfs(fs: seq<Function>)
    ensures NvmePfs(fs[..0]) == []
  {
  }

  /** pax_enum_ep, writing from position `at` on. However small `maxFunctions` is, one function may
      be written. */
  method PaxEnumEp(ep: seq<Function>, functions: array<Function>, at: nat, maxFunctions: int)
    returns (index: nat)
    requires at + |NvmePfs(ep)| <= functions.Length
    modifies functions
    ensures var limit := if maxFunctions < 1 then 1 else maxFunctions;
            index == if |NvmePfs(ep)| < limit then |NvmePfs(ep)| else limit
    ensures functions[..at + index] == old(functions[..at]) + NvmePfs(ep)[..index]
  {
    hide NvmePfs;
    index := 0;
    ghost var before := functions[..at];
    assert ep[..|ep|] == ep;
    NoNvmePfs(ep);
    for j := 0 to |ep|
      invariant index == |NvmePfs(ep[..j])| && at + index <= functions.Length
      invariant index < maxFunctions || index == 0
      invariant functions[..at + index] == before + NvmePfs(ep[..j])
    {
      NvmePfsStep(ep, j);
      if ep[j].sriovCapPf == 0x3 && ep[j].deviceClass == 0x01_0802 {
        functions[at + index] := ep[j];
        index := index + 1;
        assert functions[..at + index] == before + NvmePfs(ep[..j + 1]);
        if index >= maxFunctions {
          return;
        }
      }
    }
  }

  lemma {:induction false} SwitchPfsGrows(eps: seq<seq<Function>>, k: nat)
    requires k <= |eps|
    ensures SwitchPfs(eps[..k]) <= SwitchPfs(eps)
  {
    if k == |eps| {
      assert eps[..k] == eps;
    } else {
      SwitchPfsGrows(eps[..|eps| - 1], k);
      assert eps[..|eps| - 1][..k] == eps[..k];
    }
  }

  lemma NoSwitchPfs(eps: seq<seq<Function>>)
    ensures SwitchPfs(eps[..0]) == []
  {
  }

  lemma SwitchPfsStep(eps: seq<seq<Function>>, j: nat)
    requires j < |eps|
    ensures SwitchPfs(eps[..j + 1]) == SwitchPfs(eps[..j]) + NvmePfs(eps[j])
    ensures |SwitchPfs(eps[..j + 1])| <= |SwitchPfs(eps)|
  {
    assert eps[..j + 1][..j] == eps[..j];
    SwitchPfsGrows(eps, j + 1);
  }

  /** The endpoints behind one switch port. */
  method PaxEnumSwitch(eps: seq<seq<Function>>, functions: array<Function>, at: nat, maxFunctions: nat)
    returns (index: nat)
    requires |SwitchPfs(eps)| <= maxFunctions && at + maxFunctions <= functions.Length
    modifies functions
    ensures index == |SwitchPfs(eps)|
    ensures functions[..at + index] == old(functions[..at]) + SwitchPfs(eps)
  {
    hide NvmePfs, SwitchPfs;
    index := 0;
    ghost var before := functions[..at];
    assert eps[..|eps|] == eps;
    NoSwitchPfs(eps);
    for j := 0 to |eps|
      invariant index == |SwitchPfs(eps[..j])| <= maxFunctions
      invariant functions[..at + index] == before + SwitchPfs(eps[..j])
    {
      SwitchPfsStep(eps, j);
      var n := PaxEnumEp(eps[j], functions, at + index, maxFunctions - index);
      index := index + n;
    }
  }

  /** The endpoints of one port. */
  method PaxEnumPort(port: EpPort, functions: array<Function>, at: nat, maxFunctions: nat)
    returns (n: nat)
    requires |PortPfs(port)| <= maxFunctions && at + maxFunctions <= functions.Length
    modifies functions
    ensures n == |PortPfs(port)|
    ensures functions[..at + n] == old(functions[..at]) + PortPfs(port)
  {
    hide NvmePfs, SwitchPfs;
    n := 0;
    match port {
      case EpPort(ep) =>
        n := PaxEnumEp(ep, functions, at, maxFunctions);
      case SwitchPort(eps) =>
        n := PaxEnumSwitch(eps, functions, at, maxFunctions);
      case OtherPort =>
    }
  }

  /** pax_get_nvme_pf_functions on the selected PAX: its functions from position `at` on. */
  method PaxGetNvmePfFunctions(pax: PaxDevice, functions: array<Function>, at: nat, maxFunctions: nat)
    returns (ret: int)
    requires pax.selected.Pax? && at + maxFunctions <= functions.Length
    requires var dump := pax.answers.dump(pax.selected.index);
             dump.Some? ==> |PortsPfs(dump.value)| <= maxFunctions
    modifies functions
    ensures var dump := pax.answers.dump(pax.selected.index);
            if dump.None? then ret == -1
            else ret == |PortsPfs(dump.value)| && functions[at..at + ret] == PortsPfs(dump.value)
    ensures var dump := pax.answers.dump(pax.selected.index);
            dump.Some? ==> functions[at..at + ret] == Kept(Flat(dump.value))
  {
    hide PortPfs, PortsPfs, Kept, Flat;
    var dump := pax.answers.dump(pax.selected.index);
    if dump.None? {
      return -1;
    }
    var ports := dump.value;
    ghost var before := functions[..at];
    var index := 0;
    PortsPfsAreKept(ports);
    assert ports[..|ports|] == ports;
    NoPortsPfs(ports);
    for i := 0 to |ports|
      invariant index == |PortsPfs(ports[..i])| <= maxFunctions
      invariant functions[..at + index] == before + PortsPfs(ports[..i])
    {
      PortsPfsStep(ports, i);
      var n := PaxEnumPort(ports[i], functions, at + index, maxFunctions - index);
      index := index + n;
    }
    return index;
  }

  lemma {:induction false} PortsPfsGrows(ports: seq<EpPort>, k: nat)
    requires k <= |ports|
    ensures PortsPfs(ports[..k]) <= PortsPfs(ports)
  {
    if k == |ports| {
      assert ports[..k] == ports;
    } else {
      PortsPfsGrows(ports[..|ports| - 1], k);
      assert ports[..|ports| - 1][..k] == ports[..k];
    }
  }

  lemma NoPortsPfs(ports: seq<EpPort>)
    ensures PortsPfs(ports[..0]) == []
  {
  }

  lemma PortsPfsStep(ports: seq<EpPort>, i: nat)
    requires i < |ports|
    ensures PortsPfs(ports[..i + 1]) == PortsPfs(ports[..i]) + PortPfs(ports[i])
    ensures |PortsPfs(ports[..i + 1])| <= |PortsPfs(ports)|
  {
    assert ports[..i + 1][..i] == ports[..i];
    PortsPfsGrows(ports, i + 1);
  }

  // ----- listing namespaces -----

  lemma {:induction false} ListedGrows(answers: Answers, s: State, es: seq<Endpoint>, k: nat)
    requires k <= |es|
    ensures |Listed(answers, s, es[..k])| <= |Listed(answers, s, es)|
  {
    ListedAppends(answers, s, es[..k], es[k..]);
    assert es == es[..k] + es[k..];
  }

  /** What the visit of endpoint `j` adds. */
  lemma ListedStep(answers: Answers, s: State, es: seq<Endpoint>, j: nat)
    requires j < |es|
    ensures var (before, e) := (VisitAll(answers, s, es[..j]), es[j]);
            && VisitAll(answers, s, es[..j + 1]) == Visit(answers, before, e)
            && Listed(answers, s, es[..j + 1])
                == Listed(answers, s, es[..j]) + Reported(answers, Open(answers, before, e).enabled, e)
    ensures |Listed(answers, s, es[..j + 1])| <= |Listed(answers, s, es)|
  {
    hide Visit, Open, Reported;
    assert es[..j + 1][..j] == es[..j];
    ListedGrows(answers, s, es, j + 1);
  }

  lemma {:induction false} EndpointsAt(i: nat, fs: seq<Function>, j: nat)
    requires j < |fs|
    ensures Endpoints(i, fs)[j] == Endpoint(i, fs[j].pdfid)
  {
    if j < |fs| - 1 {
      EndpointsAt(i, fs[..|fs| - 1], j);
    }
  }

  lemma {:induction false} InUseStep(nsList: seq<U32>, k: nat)
    requires k < |nsList|
    ensures InUse(nsList[..k + 1]) == InUse(nsList[..k]) + if nsList[k] != 0 then [ToInt(nsList[k])] else []
    ensures |InUse(nsList[..k + 1])| <= |InUse(nsList)|
    decreases |nsList| - k
  {
    assert nsList[..k + 1][..k] == nsList[..k];
    if k + 1 < |nsList| {
      InUseStep(nsList, k + 1);
    } else {
      assert nsList[..k + 1] == nsList;
    }
  }

  /** The loop over the identifiers of one list. */
  method ListInUse(pax: PaxDevice, nsList: seq<U32>, listItems: array<int>, base: nat) returns (n: nat)
    requires base + |InUse(nsList)| <= listItems.Length
    modifies pax`nsId, listItems
    ensures n == |InUse(nsList)|
    ensures listItems[..base + n] == old(listItems[..base]) + InUse(nsList)
  {
    hide InUse;
    n := 0;
    ghost var before := listItems[..base];
    assert nsList[..|nsList|] == nsList;
    assert InUse(nsList[..0]) == [] by { NothingInUse(nsList); }
    for k := 0 to |nsList|
      invariant n == |InUse(nsList[..k])| <= |InUse(nsList)|
      invariant listItems[..base + n] == before + InUse(nsList[..k])
    {
      InUseStep(nsList, k);
      if nsList[k] != 0 {
        pax.nsId := nsList[k];
        listItems[base + n] := ToInt(nsList[k]);
        n := n + 1;
      }
    }
  }

  lemma NothingInUse(nsList: seq<U32>)
    ensures InUse(nsList[..0]) == []
  {
  }

  /** The visits to the first `j` endpoints of `es`: the device's state and the list so far. */
  ghost predicate VisitedSoFar(answers: Answers, s: State, es: seq<Endpoint>, j: nat, before: seq<int>,
                               now: State, items: seq<int>)
  {
    && j <= |es|
    && now == VisitAll(answers, s, es[..j])
    && items == before + Listed(answers, s, es[..j])
  }

  lemma NothingVisitedYet(answers: Answers, s: State, es: seq<Endpoint>, before: seq<int>)
    ensures VisitedSoFar(answers, s, es, 0, before, s, before)
  {
  }

  lemma VisitOneMore(answers: Answers, s: State, es: seq<Endpoint>, j: nat, before: seq<int>,
                     now: State, items: seq<int>)
    requires j < |es| && VisitedSoFar(answers, s, es, j, before, now, items)
    ensures var added := Reported(answers, Open(answers, now, es[j]).enabled, es[j]);
            && |items + added| <= |before| + |Listed(answers, s, es)|
            && VisitedSoFar(answers, s, es, j + 1, before, Visit(answers, now, es[j]), items + added)
  {
    hide Visit, Open, Reported, VisitAll, Listed;
    ListedStep(answers, s, es, j);
  }

  lemma VisitedIs(answers: Answers, s: State, es: seq<Endpoint>, before: seq<int>,
                  now: State, items: seq<int>)
    requires VisitedSoFar(answers, s, es, |es|, before, now, items)
    ensures now == VisitAll(answers, s, es) && items == before + Listed(answers, s, es)
  {
    assert es[..|es|] == es;
  }

  /** One visit: the namespaces of the endpoint with identifier `pdfid` on the selected PAX go into
      the list from `at` on. */
  method VisitEndpoint(pax: PaxDevice, pdfid: U16, listItems: array<int>, at: nat) returns (n: nat)
    requires pax.selected.Pax?
    requires var e := Endpoint(pax.selected.index, pdfid);
             at + |Reported(pax.answers, Open(pax.answers, pax.Now(), e).enabled, e)| <= listItems.Length
    modifies pax, listItems
    ensures pax.selected == old(pax.selected)
    ensures var e := Endpoint(pax.selected.index, pdfid);
            var added := Reported(pax.answers, Open(pax.answers, old(pax.Now()), e).enabled, e);
            && pax.Now() == Visit(pax.answers, old(pax.Now()), e)
            && n == |added|
            && listItems[..at + n] == old(listItems[..at]) + added
  {
    hide InUse;
    n := 0;
    pax.pdfid := pdfid;
    pax.QueryTunnel();
    if pax.channelStatus == Disabled {
      pax.EnableTunnel();
    }
    var nsList := pax.IdentifyNsList();
    if nsList.Some? {
      n := ListInUse(pax, nsList.value, listItems, at);
    }
    if pax.channelStatus == Disabled {
      pax.DisableTunnel();
    }
  }

  /** pax_build_nvme_pf_list: visit `functionN` functions of the selected PAX. */
  method PaxBuildNvmePfList(pax: PaxDevice, functions: array<Function>, at: nat, functionN: nat,
                            listItems: array<int>, base: nat)
    returns (idx: nat)
    requires pax.selected.Pax? && at + functionN <= functions.Length
    requires var es := Endpoints(pax.selected.index, functions[at..at + functionN]);
             base + |Listed(pax.answers, pax.Now(), es)| <= listItems.Length
    modifies pax, listItems
    ensures pax.selected == old(pax.selected)
    ensures var es := Endpoints(pax.selected.index, functions[at..at + functionN]);
            && pax.Now() == VisitAll(pax.answers, old(pax.Now()), es)
            && idx == |Listed(pax.answers, old(pax.Now()), es)|
            && listItems[..base + idx] == old(listItems[..base]) + Listed(pax.answers, old(pax.Now()), es)
  {
    hide *;
    idx := 0;
    ghost var before, s, fs := listItems[..base], pax.Now(), functions[at..at + functionN];
    ghost var es := Endpoints(pax.selected.index, fs);
    NothingVisitedYet(pax.answers, s, es, before);
    for j := 0 to functionN
      invariant pax.selected == old(pax.selected)
      invariant idx <= |Listed(pax.answers, s, es)|
      invariant VisitedSoFar(pax.answers, s, es, j, before, pax.Now(), listItems[..base + idx])
    {
      EndpointsAt(pax.selected.index, fs, j);
      VisitOneMore(pax.answers, s, es, j, before, pax.Now(), listItems[..base + idx]);
      var n := VisitEndpoint(pax, functions[at + j].pdfid, listItems, base + idx);
      idx := idx + n;
    }
    VisitedIs(pax.answers, s, es, before, pax.Now(), listItems[..base + idx]);
  }

  lemma {:induction false} VisitedGrows(answers: Answers, i: nat, n: nat) returns (rest: seq<Endpoint>)
    requires i <= n
    ensures Visited(answers, n) == Visited(answers, i) + rest
    decreases n
  {
    hide PaxPfs, Endpoints;
    if i == n {
      rest := [];
    } else {
      var front := VisitedGrows(answers, i, n - 1);
      rest := front + Endpoints(n - 1, PaxPfs(answers, n - 1));
    }
  }

  /** What PAX `i` adds to the listing. */
  lemma PaxStep(answers: Answers, s: State, i: nat, n: nat)
    requires i < n
    ensures var (before, es) := (Visited(answers, i), Endpoints(i, PaxPfs(answers, i)));
            && Visited(answers, i + 1) == before + es
            && VisitAll(answers, s, Visited(answers, i + 1)) == VisitAll(answers, VisitAll(answers, s, before), es)
            && Listed(answers, s, Visited(answers, i + 1))
                == Listed(answers, s, before) + Listed(answers, VisitAll(answers, s, before), es)
    ensures |Listed(answers, s, Visited(answers, i + 1))| <= |Listed(answers, s, Visited(answers, n))|
  {
    hide Listed, VisitAll, PaxPfs, Endpoints;
    ListedAppends(answers, s, Visited(answers, i), Endpoints(i, PaxPfs(answers, i)));
    VisitAllAppends(answers, s, Visited(answers, i), Endpoints(i, PaxPfs(answers, i)));
    var rest := VisitedGrows(answers, i + 1, n);
    ListedAppends(answers, s, Visited(answers, i + 1), rest);
  }

  lemma NothingVisited(answers: Answers, s: State, i: nat)
    ensures Endpoints(i, []) == []
    ensures VisitAll(answers, s, []) == s && Listed(answers, s, []) == []
    ensures Visited(answers, 0) == []
  {
  }

  /** One round of pax_get_nvme_pf_list: the namespaces on PAX `i`, behind the `count` found so far. */
  method ListPax(pax: PaxDevice, i: nat, funcs: array<Function>, count: nat, listItems: array<int>, base: nat)
    returns (added: nat)
    requires funcs.Length == 1024 && count + |PaxPfs(pax.answers, i)| <= 1024
    requires base + count + |Listed(pax.answers, pax.Now(), Endpoints(i, PaxPfs(pax.answers, i)))| <= listItems.Length
    modifies pax, funcs, listItems
    ensures var (s, es) := (old(pax.Now()), Endpoints(i, PaxPfs(pax.answers, i)));
            && pax.Now() == VisitAll(pax.answers, s, es)
            && added == |Listed(pax.answers, s, es)|
            && listItems[..base + count + added]
                == old(listItems[..base + count]) + Listed(pax.answers, s, es)
  {
    hide Listed, VisitAll, Endpoints, PortsPfs;
    added := 0;
    NothingVisited(pax.answers, pax.Now(), i);
    if pax.answers.routePort(i) == 0xff && pax.answers.ownIndex != i {
      return;
    }
    if pax.answers.ownIndex == i || pax.answers.reachableByUnicast(i) {
      var ok := pax.SetPaxId(Pax(i));
      if !ok {
        return;
      }
      assert pax.answers.dump(i).Some? ==> PaxPfs(pax.answers, i) == PortsPfs(pax.answers.dump(i).value);
      var n := PaxGetNvmePfFunctions(pax, funcs, count, 1024 - count);
      if n <= 0 {
        return;
      }
      added := PaxBuildNvmePfList(pax, funcs, count, n, listItems, base + count);
    }
  }

  /** pax_get_nvme_pf_list, when the functions and the namespaces found fit their buffers: `count`,
      the number of namespaces so far, is also the position in the 1024 functions. */
  method PaxGetNvmePfList(pax: PaxDevice, listItems: array<int>, base: nat) returns (ret: int)
    requires var total := |Listed(pax.answers, pax.Now(), Visited(pax.answers, 16))|;
             && base + total <= listItems.Length
             && forall i | 0 <= i < 16 :: total + |PaxPfs(pax.answers, i)| <= 1024
    modifies pax, listItems
    ensures pax.answers.selectable(Local) ==> pax.selected == Local
    ensures !pax.answers.selectable(Local) ==> ret == -1
    ensures pax.answers.selectable(Local) && !pax.answers.topologyKnown ==> ret == -2
    ensures pax.answers.selectable(Local) && pax.answers.topologyKnown && !pax.answers.generalKnown ==> ret == -3
    ensures !(pax.answers.selectable(Local) && pax.answers.topologyKnown && pax.answers.generalKnown) ==>
      pax.Now() == old(pax.Now()) && listItems[..] == old(listItems[..])
    ensures pax.answers.selectable(Local) && pax.answers.topologyKnown && pax.answers.generalKnown ==>
      var (s, es) := (old(pax.Now()), Visited(pax.answers, 16));
      && ret == |Listed(pax.answers, s, es)|
      && listItems[..base + ret] == old(listItems[..base]) + Listed(pax.answers, s, es)
      && pax.Now() == VisitAll(pax.answers, s, es)
    ensures
      && pax.answers.selectable(Local) && pax.answers.topologyKnown && pax.answers.generalKnown
      && (forall e :: pax.answers.statusKnown(e) && pax.answers.canEnable(e) && pax.answers.canDisable(e)) ==>
        && listItems[..base + ret] == old(listItems[..base]) + NamespacesFrom(pax.answers, 0)
        && pax.enabled == old(pax.enabled)
  {
    hide Listed, VisitAll, Visited, Endpoints, PaxPfs, NamespacesFrom;
    var ok := pax.SetPaxId(Local);
    if !ok {
      return -1;
    }
    if !pax.answers.topologyKnown {
      return -2;
    }
    if !pax.answers.generalKnown {
      return -3;
    }
    var funcs := new Function[1024];
    ghost var s, before := pax.Now(), listItems[..base];
    ghost var total := |Listed(pax.answers, s, Visited(pax.answers, 16))|;
    var count := 0;
    NothingVisited(pax.answers, s, 0);
    for i := 0 to 16
      invariant pax.Now() == VisitAll(pax.answers, s, Visited(pax.answers, i))
      invariant count == |Listed(pax.answers, s, Visited(pax.answers, i))| <= total
      invariant listItems[..base + count] == before + Listed(pax.answers, s, Visited(pax.answers, i))
    {
      PaxStep(pax.answers, s, i, 16);
      var added := ListPax(pax, i, funcs, count, listItems, base);
      count := count + added;
    }
    ok := pax.SetPaxId(Local);
    if forall e :: pax.answers.statusKnown(e) && pax.answers.canEnable(e) && pax.answers.canDisable(e) {
      SuccessfulListing(pax.answers, s);
    }
    return count;
  }

  // ----- a listing in which every call succeeds -----

  /** The tunnels are as before, and the namespaces come in PAX, function and identifier order. */
  lemma SuccessfulListing(answers: Answers, s: State)
    requires forall e :: answers.statusKnown(e) && answers.canEnable(e) && answers.canDisable(e)
    ensures VisitAll(answers, s, Visited(answers, 16)).enabled == s.enabled
    ensures Listed(answers, s, Visited(answers, 16)) == NamespacesFrom(answers, 0)
  {
    hide Visited, VisitAll, Listed, NamespacesFrom;
    var es := Visited(answers, 16);
    Restores(answers, s, es);
    ListedInOrder(answers, s, es);
    OrderIsConcatenation(answers, s.enabled, es);
    VisitedThenRest(answers, 0);
    NothingVisited(answers, s, 0);
    assert [] + NamespacesFrom(answers, 0) == NamespacesFrom(answers, 0);
  }

  /** Such a listing has a namespace exactly when a physical function of the NVMe class, attached to an
      endpoint of a PAX that is reached and selected, has it in use. */
  lemma ListedIff(answers: Answers, s: State, nsid: int)
    requires forall e :: answers.statusKnown(e) && answers.canEnable(e) && answers.canDisable(e)
    ensures nsid in Listed(answers, s, Visited(answers, 16))
       <==> exists i: nat, f | i < 16 :: InUseOn(answers, i, f, nsid)
  {
    hide *;
    SuccessfulListing(answers, s);
    InUseFrom(answers, 0, nsid);
  }

  ghost predicate InUseOn(answers: Answers, i: nat, f: Function, nsid: int) {
    && (i == answers.ownIndex || (answers.routePort(i) != 0xff && answers.reachableByUnicast(i)))
    && answers.selectable(Pax(i)) && answers.dump(i).Some? && Attached(answers.dump(i).value, f)
    && f.sriovCapPf == 3 && f.deviceClass == 0x01_0802
    && var list := answers.namespaces(Endpoint(i, f.pdfid));
    && list.Some? && exists entry | entry in list.value :: entry != 0 && nsid == ToInt(entry)
  }

  /** `f` is in an endpoint port, or in an endpoint of a switch port. */
  ghost predicate Attached(ports: seq<EpPort>, f: Function) {
    exists port | port in ports :: Holds(port, f)
  }

  ghost predicate Holds(port: EpPort, f: Function) {
    match port
    case EpPort(ep) => f in ep
    case SwitchPort(eps) => exists ep | ep in eps :: f in ep
    case OtherPort => false
  }

  /** All functions of a dump, in order. */
  function Flat(ports: seq<EpPort>): seq<Function> {
    if ports == [] then []
    else (match ports[0]
          case EpPort(ep) => ep
          case SwitchPort(eps) => FlatEps(eps)
          case OtherPort => []) + Flat(ports[1..])
  }

  function FlatEps(eps: seq<seq<Function>>): seq<Function> {
    if eps == [] then [] else eps[0] + FlatEps(eps[1..])
  }

  function Kept(fs: seq<Function>): seq<Function> {
    if fs == [] then []
    else (if fs[0].sriovCapPf == 3 && fs[0].deviceClass == 0x01_0802 then [fs[0]] else []) + Kept(fs[1..])
  }

  function NonZero(nsList: seq<U32>): seq<int> {
    if nsList == [] then []
    else (if nsList[0] == 0 then [] else [ToInt(nsList[0])]) + NonZero(nsList[1..])
  }

  /** The namespaces of functions of PAX `i`, one function after another. */
  function NamespacesOf(answers: Answers, i: nat, fs: seq<Function>): seq<int> {
    if fs == [] then [] else
      var list := answers.namespaces(Endpoint(i, fs[0].pdfid));
      (if list.Some? then NonZero(list.value) else []) + NamespacesOf(answers, i, fs[1..])
  }

  /** The namespaces on the PAXes from `i` on, one PAX after another. */
  function NamespacesFrom(answers: Answers, i: nat): seq<int>
    decreases 16 - i
  {
    if i >= 16 then []
    else
      (if (i == answers.ownIndex || (answers.routePort(i) != 0xff && answers.reachableByUnicast(i)))
          && answers.selectable(Pax(i)) && answers.dump(i).Some?
       then NamespacesOf(answers, i, Kept(Flat(answers.dump(i).value))) else [])
      + NamespacesFrom(answers, i + 1)
  }

  // The functions found.

  lemma {:induction false} KeptOfConcat(a: seq<Function>, b: seq<Function>)
    ensures Kept(a + b) == Kept(a) + Kept(b)
  {
    if a == [] {
      assert a + b == b;
    } else {
      assert (a + b)[1..] == a[1..] + b;
      KeptOfConcat(a[1..], b);
    }
  }

  lemma {:induction false} NvmePfsAreKept(fs: seq<Function>)
    ensures NvmePfs(fs) == Kept(fs)
  {
    if fs != [] {
      var n := |fs| - 1;
      NvmePfsAreKept(fs[..n]);
      KeptOfConcat(fs[..n], [fs[n]]);
      assert fs == fs[..n] + [fs[n]];
      assert [fs[n]][1..] == [];
    }
  }

  lemma {:induction false} FlatEpsOfConcat(a: seq<seq<Function>>, b: seq<seq<Function>>)
    ensures FlatEps(a + b) == FlatEps(a) + FlatEps(b)
  {
    if a == [] {
      assert a + b == b;
    } else {
      assert (a + b)[1..] == a[1..] + b;
      FlatEpsOfConcat(a[1..], b);
    }
  }

  lemma {:induction false} SwitchPfsAreKept(eps: seq<seq<Function>>)
    ensures SwitchPfs(eps) == Kept(FlatEps(eps))
  {
    if eps != [] {
      var n := |eps| - 1;
      SwitchPfsAreKept(eps[..n]);
      NvmePfsAreKept(eps[n]);
      FlatEpsOfConcat(eps[..n], [eps[n]]);
      assert eps == eps[..n] + [eps[n]];
      assert FlatEps([eps[n]]) == eps[n] by { assert [eps[n]][1..] == []; }
      KeptOfConcat(FlatEps(eps[..n]), eps[n]);
    }
  }

  lemma {:induction false} FlatOfConcat(a: seq<EpPort>, b: seq<EpPort>)
    ensures Flat(a + b) == Flat(a) + Flat(b)
  {
    hide FlatEps;
    if a == [] {
      assert a + b == b;
    } else {
      assert (a + b)[1..] == a[1..] + b;
      FlatOfConcat(a[1..], b);
    }
  }

  /** The functions found in a dump are those of its endpoints that pass the filter, in their order. */
  lemma {:induction false} PortsPfsAreKept(ports: seq<EpPort>)
    ensures PortsPfs(ports) == Kept(Flat(ports))
  {
    if ports != [] {
      var n := |ports| - 1;
      PortsPfsAreKept(ports[..n]);
      PortPfsAreKept(ports[n]);
      FlatOfConcat(ports[..n], [ports[n]]);
      assert ports == ports[..n] + [ports[n]];
      KeptOfConcat(Flat(ports[..n]), Flat([ports[n]]));
    }
  }

  lemma PortPfsAreKept(port: EpPort)
    ensures PortPfs(port) == Kept(Flat([port]))
  {
    assert [port][1..] == [];
    match port
    case EpPort(ep) =>
      NvmePfsAreKept(ep);
      assert ep + [] == ep;
    case SwitchPort(eps) =>
      SwitchPfsAreKept(eps);
      assert FlatEps(eps) + [] == FlatEps(eps);
    case OtherPort =>
  }

  lemma {:induction false} KeptIff(fs: seq<Function>, f: Function)
    ensures f in Kept(fs) <==> f in fs && f.sriovCapPf == 3 && f.deviceClass == 0x01_0802
  {
    if fs != [] {
      KeptIff(fs[1..], f);
    }
  }

  lemma {:induction false} FlatEpsIff(eps: seq<seq<Function>>, f: Function)
    ensures f in FlatEps(eps) <==> exists ep | ep in eps :: f in ep
  {
    if eps != [] {
      FlatEpsIff(eps[1..], f);
    }
  }

  lemma {:induction false} FlatIff(ports: seq<EpPort>, f: Function)
    ensures f in Flat(ports) <==> Attached(ports, f)
  {
    if ports != [] {
      FlatIff(ports[1..], f);
      if ports[0].SwitchPort? {
        FlatEpsIff(ports[0].eps, f);
      }
      assert Attached(ports, f) <==> Holds(ports[0], f) || Attached(ports[1..], f);
    }
  }

  /** A function is found on a PAX exactly when it is an NVMe physical function in the dump of a PAX
      that is reached and selected. */
  lemma FoundIff(answers: Answers, i: nat, f: Function)
    ensures f in PaxPfs(answers, i) <==>
      && (i == answers.ownIndex || (answers.routePort(i) != 0xff && answers.reachableByUnicast(i)))
      && answers.selectable(Pax(i)) && answers.dump(i).Some? && Attached(answers.dump(i).value, f)
      && f.sriovCapPf == 3 && f.deviceClass == 0x01_0802
  {
    hide PortsPfs, Kept, Flat, Attached;
    if answers.dump(i).Some? {
      var ports := answers.dump(i).value;
      PortsPfsAreKept(ports);
      KeptIff(Flat(ports), f);
      FlatIff(ports, f);
    }
  }

  // The namespaces listed.

  lemma {:induction false} NonZeroOfConcat(a: seq<U32>, b: seq<U32>)
    ensures NonZero(a + b) == NonZero(a) + NonZero(b)
  {
    if a == [] {
      assert a + b == b;
    } else {
      assert (a + b)[1..] == a[1..] + b;
      NonZeroOfConcat(a[1..], b);
    }
  }

  lemma {:induction false} InUseIsNonZero(nsList: seq<U32>)
    ensures InUse(nsList) == NonZero(nsList)
  {
    if nsList != [] {
      var n := |nsList| - 1;
      InUseIsNonZero(nsList[..n]);
      NonZeroOfConcat(nsList[..n], [nsList[n]]);
      assert nsList == nsList[..n] + [nsList[n]];
      assert [nsList[n]][1..] == [];
    }
  }

  /** The namespaces of each endpoint, one endpoint after another. */
  function Concatenated(answers: Answers, es: seq<Endpoint>): seq<int> {
    if es == [] then [] else
      var e := es[|es| - 1];
      Concatenated(answers, es[..|es| - 1])
      + if answers.namespaces(e).Some? then InUse(answers.namespaces(e).value) else []
  }

  lemma {:induction false} OrderIsConcatenation(answers: Answers, enabled: set<Endpoint>, es: seq<Endpoint>)
    requires forall e :: answers.canEnable(e)
    ensures InOrder(answers, enabled, es) == Concatenated(answers, es)
  {
    if es != [] {
      OrderIsConcatenation(answers, enabled, es[..|es| - 1]);
    }
  }

  lemma {:induction false} ConcatenatedAppends(answers: Answers, a: seq<Endpoint>, b: seq<Endpoint>)
    ensures Concatenated(answers, a + b) == Concatenated(answers, a) + Concatenated(answers, b)
  {
    hide InUse;
    if b == [] {
      assert a + b == a;
    } else {
      var n := |b| - 1;
      ConcatenatedAppends(answers, a, b[..n]);
      assert (a + b)[..|a| + n] == a + b[..n];
    }
  }

  lemma {:induction false} NamespacesOfConcat(answers: Answers, i: nat, a: seq<Function>, b: seq<Function>)
    ensures NamespacesOf(answers, i, a + b) == NamespacesOf(answers, i, a) + NamespacesOf(answers, i, b)
  {
    hide NonZero;
    if a == [] {
      assert a + b == b;
    } else {
      assert (a + b)[1..] == a[1..] + b;
      NamespacesOfConcat(answers, i, a[1..], b);
    }
  }

  lemma {:induction false} EndpointsGiveNamespaces(answers: Answers, i: nat, fs: seq<Function>)
    ensures Concatenated(answers, Endpoints(i, fs)) == NamespacesOf(answers, i, fs)
  {
    hide NonZero, InUse;
    if fs != [] {
      var n := |fs| - 1;
      var e := Endpoint(i, fs[n].pdfid);
      EndpointsGiveNamespaces(answers, i, fs[..n]);
      NamespacesOfConcat(answers, i, fs[..n], [fs[n]]);
      assert fs == fs[..n] + [fs[n]];
      assert [fs[n]][1..] == [];
      assert Endpoints(i, fs)[..n] == Endpoints(i, fs[..n]);
      if answers.namespaces(e).Some? {
        InUseIsNonZero(answers.namespaces(e).value);
      }
    }
  }

  lemma PaxGivesNamespaces(answers: Answers, i: nat)
    requires i < 16
    ensures Concatenated(answers, Endpoints(i, PaxPfs(answers, i))) + NamespacesFrom(answers, i + 1)
         == NamespacesFrom(answers, i)
  {
    hide PortsPfs, Kept, Flat, Endpoints, NamespacesOf, Concatenated;
    EndpointsGiveNamespaces(answers, i, PaxPfs(answers, i));
    if answers.dump(i).Some? {
      PortsPfsAreKept(answers.dump(i).value);
    }
    NoNamespaces(answers, i);
  }

  lemma NoNamespaces(answers: Answers, i: nat)
    ensures NamespacesOf(answers, i, []) == []
  {
  }

  lemma {:induction false} VisitedThenRest(answers: Answers, i: nat)
    requires i <= 16
    ensures Concatenated(answers, Visited(answers, 16))
         == Concatenated(answers, Visited(answers, i)) + NamespacesFrom(answers, i)
    decreases 16 - i
  {
    hide NamespacesFrom, Concatenated, Endpoints, PaxPfs;
    if i < 16 {
      VisitedThenRest(answers, i + 1);
      ConcatenatedAppends(answers, Visited(answers, i), Endpoints(i, PaxPfs(answers, i)));
      PaxGivesNamespaces(answers, i);
    } else {
      assert NamespacesFrom(answers, 16) == [] by { NothingLeft(answers); }
    }
  }

  lemma NothingLeft(answers: Answers)
    ensures NamespacesFrom(answers, 16) == []
  {
  }

  lemma {:induction false} NonZeroIff(nsList: seq<U32>, nsid: int)
    ensures nsid in NonZero(nsList) <==> exists entry | entry in nsList :: entry != 0 && nsid == ToInt(entry)
  {
    if nsList != [] {
      NonZeroIff(nsList[1..], nsid);
    }
  }

  ghost predicate HasInUse(answers: Answers, e: Endpoint, nsid: int) {
    && answers.namespaces(e).Some?
    && exists entry | entry in answers.namespaces(e).value :: entry != 0 && nsid == ToInt(entry)
  }

  lemma {:induction false} NamespacesOfIff(answers: Answers, i: nat, fs: seq<Function>, nsid: int)
    ensures nsid in NamespacesOf(answers, i, fs)
       <==> exists f | f in fs :: HasInUse(answers, Endpoint(i, f.pdfid), nsid)
  {
    hide NonZero;
    if fs != [] {
      NamespacesOfIff(answers, i, fs[1..], nsid);
      var list := answers.namespaces(Endpoint(i, fs[0].pdfid));
      if list.Some? {
        NonZeroIff(list.value, nsid);
      }
      assert HasInUse(answers, Endpoint(i, fs[0].pdfid), nsid) <==> list.Some? && nsid in NonZero(list.value);
      hide HasInUse;
    }
  }

  lemma InUseHere(answers: Answers, i: nat, nsid: int)
    requires i < 16
    ensures nsid in NamespacesFrom(answers, i)
       <==> (exists f :: InUseOn(answers, i, f, nsid)) || nsid in NamespacesFrom(answers, i + 1)
  {
    hide PortsPfs, Kept, Flat, NamespacesOf, Attached, NamespacesFrom;
    HereThenRest(answers, i, nsid);
    if answers.dump(i).Some? {
      NamespacesOfIff(answers, i, Kept(Flat(answers.dump(i).value)), nsid);
    }
    forall f: Function
      ensures InUseOn(answers, i, f, nsid) <==>
        Used(answers, i) && f in Kept(Flat(answers.dump(i).value)) && HasInUse(answers, Endpoint(i, f.pdfid), nsid)
    {
      if answers.dump(i).Some? {
        KeptIff(Flat(answers.dump(i).value), f);
        FlatIff(answers.dump(i).value, f);
      }
    }
  }

  predicate Used(answers: Answers, i: nat) {
    (i == answers.ownIndex || (answers.routePort(i) != 0xff && answers.reachableByUnicast(i)))
    && answers.selectable(Pax(i)) && answers.dump(i).Some?
  }

  lemma HereThenRest(answers: Answers, i: nat, nsid: int)
    requires i < 16
    ensures nsid in NamespacesFrom(answers, i) <==>
      || (Used(answers, i) && nsid in NamespacesOf(answers, i, Kept(Flat(answers.dump(i).value))))
      || nsid in NamespacesFrom(answers, i + 1)
  {
    hide Kept, Flat, NamespacesOf;
  }

  lemma {:induction false} InUseFrom(answers: Answers, i: nat, nsid: int)
    requires i <= 16
    ensures nsid in NamespacesFrom(answers, i)
       <==> exists j: nat, f | i <= j < 16 :: InUseOn(answers, j, f, nsid)
    decreases 16 - i
  {
    hide NamespacesFrom, InUseOn;
    if i < 16 {
      InUseHere(answers, i, nsid);
      InUseFrom(answers, i + 1, nsid);
    } else {
      NothingLeft(answers);
    }
  }
}
