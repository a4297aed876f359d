/**
 Speaker pairing (apps/btspeaker/btspeaker_main.cpp): the role decision, and whole pairing runs of any
 number of devices that hear each other's advertisements late, repeatedly or not at all.
 */
module Pairing {
  import opened Ring
  import opened ScanTable

  datatype Role = Master | Slave | Unknown

  function ByTime(peer: Status, own: Status): Role
  {
    if peer.time > own.time then Master else if peer.time < own.time then Slave else Unknown
  }

  function ByMobile(peer: Status, own: Status): Role
  {
    if peer.mobile != 0 && own.mobile != 0 then ByTime(peer, own)
    else if peer.mobile != 0 then Slave
    else if own.mobile != 0 then Master
    else ByTime(peer, own)
  }

  /** app_speaker_decision_local_device_role */
  function Decide(peer: Status, own: Status): Role
  {
    if peer.profile != 0 && own.profile != 0 then ByMobile(peer, own)
    else if peer.profile != 0 then Slave
    else if own.profile != 0 then Master
    else ByMobile(peer, own)
  }

  /** memcmp > 0 */
  predicate Greater(a: seq<byte>, b: seq<byte>)
    requires |a| == |b|
  {
    a != [] && (a[0] > b[0] || (a[0] == b[0] && Greater(a[1..], b[1..])))
  }

  /** A device as the other side sees it. */
  datatype Device = Device(addr: Addr, status: Status)

  /** The role a device takes on a confirmation in which `peer` names it: never Unknown. */
  function RoleOf(own: Device, peer: Device): (r: Role)
    ensures r != Unknown
  {
    var r := Decide(peer.status, own.status);
    if r != Unknown then r
    else if Greater(peer.addr, own.addr) then Slave else Master
  }

  lemma {:induction false} GreaterTotal(a: seq<byte>, b: seq<byte>)
    requires |a| == |b| && a != b
    ensures Greater(a, b) <==> !Greater(b, a)
    decreases |a|
  {
    if a[0] == b[0] {
      assert a == [a[0]] + a[1..] && b == [b[0]] + b[1..];
      GreaterTotal(a[1..], b[1..]);
    }
  }

  lemma {:induction false} GreaterTransitive(a: seq<byte>, b: seq<byte>, c: seq<byte>)
    requires |a| == |b| == |c| && Greater(a, b) && Greater(b, c)
    ensures Greater(a, c)
    decreases |a|
  {
    if a[0] == b[0] && b[0] == c[0] {
      GreaterTransitive(a[1..], b[1..], c[1..]);
    }
  }

  /** `x` becomes master over `y`. */
  predicate Beats(x: Device, y: Device) { RoleOf(x, y) == Master }

  /** The two ends of a pair never take the same role. */
  lemma RolesDiffer(x: Device, y: Device)
    requires x.addr != y.addr
    ensures Beats(x, y) <==> !Beats(y, x)
  {
    GreaterTotal(x.addr, y.addr);
  }

  /** The decision with its tie-break is transitive: among devices with distinct addresses it is a strict
      total order on profile, mobile link, time and address. */
  lemma BeatsTransitive(x: Device, y: Device, z: Device)
    requires x.addr != y.addr && y.addr != z.addr && x.addr != z.addr && Beats(x, y) && Beats(y, z)
    ensures Beats(x, z)
  {
    GreaterTotal(x.addr, y.addr);
    GreaterTotal(y.addr, z.addr);
    GreaterTotal(x.addr, z.addr);
    if Greater(z.addr, x.addr) {
      if Greater(x.addr, y.addr) { GreaterTransitive(z.addr, x.addr, y.addr); }
      if Greater(y.addr, z.addr) { GreaterTransitive(y.addr, z.addr, x.addr); }
    }
  }

  /** Who becomes master, in the order of what counts: a device with a profile connected over one without; then one with
      a mobile link over one without; then the smaller time; then the greater address. */
  predicate Outranks(x: Device, y: Device)
  {
    var profileX, profileY := x.status.profile != 0, y.status.profile != 0;
    var mobileX, mobileY := x.status.mobile != 0, y.status.mobile != 0;
    if profileX != profileY then profileX
    else if mobileX != mobileY then mobileX
    else if x.status.time != y.status.time then x.status.time < y.status.time
    else Greater(x.addr, y.addr)
  }

  lemma BeatsIff(x: Device, y: Device)
    requires x.addr != y.addr
    ensures Beats(x, y) <==> Outranks(x, y)
  {
    GreaterTotal(x.addr, y.addr);
  }

  /** The address order goes by the first byte that differs. */
  lemma {:induction false} GreaterByBytes(a: seq<byte>, b: seq<byte>, k: nat)
    requires |a| == |b| && k < |a| && a[..k] == b[..k] && a[k] != b[k]
    ensures Greater(a, b) <==> a[k] > b[k]
    decreases |a|
  {
    if k > 0 {
      assert a[0] == a[..k][0] == b[..k][0] == b[0];
      assert a[1..][..k - 1] == a[..k][1..] == b[..k][1..] == b[1..][..k - 1];
      GreaterByBytes(a[1..], b[1..], k - 1);
    }
  }

  // ---------- the devices at work ----------

  /** What is on the air: a discovery or a confirmation, with intact CRC. */
  datatype Advert =
    | Discovery(sender: Device)
    | Confirmation(sender: Device, peer: Device)

  datatype UiState = UiIdle | UiDiscovery | UiFormation | UiPrehandle

  /** One app_tws_ibrt_reconfig_role call, and whose confirmation caused it. */
  datatype Call = Call(role: Role, master: Addr, slave: Addr, peer: Addr)

  datatype Node = Node(ui: UiState, timedOut: bool, events: nat, table: Table, calls: seq<Call>)

  /** The devices, their state, and everything ever advertised: adverts may be heard late or again. */
  datatype World = World(devices: seq<Device>, nodes: seq<Node>, air: seq<Advert>)

  datatype Step =
    | Press(d: nat)            // app_speaker_setup_bt_stereo: the event is posted
    | Timer(d: nat)            // app_ibrt_ui_wait_ble_scanning_device_timer_cb
    | Parse(d: nat)            // one posted event: app_speaker_tws_pairing_parse
    | Hear(d: nat, k: nat, rssi: int)  // one scan report

  predicate Sound(w: World)
  {
    |w.nodes| == |w.devices|
  }

  /** The confirmation names the best candidate; an empty table names the blank entry. */
  function Chosen(t: Table): Device
  {
    Device(t[Best(t)].addr, t[Best(t)].status)
  }

  /** app_speaker_tws_pairing_parse, with the advertisement it starts, if any. */
  function ParseNode(own: Device, n: Node): (Node, seq<Advert>)
  {
    match n.ui
    case UiIdle => (n.(ui := UiDiscovery, timedOut := false, table := CLEARED), [Discovery(own)])
    case UiDiscovery =>
      if n.timedOut then (n.(ui := UiIdle, timedOut := false), [])
      else (n.(ui := UiFormation), [Confirmation(own, Chosen(n.table))])
    case UiFormation =>
      if n.timedOut then (n.(ui := UiIdle, timedOut := false), []) else (n.(ui := UiPrehandle), [])
    case UiPrehandle => (n.(ui := UiIdle), [])
  }

  /** app_speaker_ble_scan_data_handle_tws_discovery_cfm and what its caller does with the role. */
  function HearConfirmation(own: Device, n: Node, sender: Device, peer: Device): Node
  {
    if peer.addr != own.addr then n
    else
      var role := RoleOf(peer, sender);
      if n.ui == UiFormation then
        var call := if role == Master then Call(Master, peer.addr, sender.addr, sender.addr)
                    else Call(Slave, sender.addr, peer.addr, sender.addr);
        n.(calls := n.calls + [call], timedOut := false, events := n.events + 1)
      else if n.ui == UiDiscovery then n.(timedOut := false, events := n.events + 1)
      else n
  }

  function HearDiscovery(n: Node, r: Reception): Node
  {
    var m := n.(table := Receive(n.table, r));
    if Confirms(n.table, r) && n.ui == UiDiscovery then m.(timedOut := false, events := n.events + 1) else m
  }

  function Do(w: World, a: Step): (v: World)
    requires Sound(w)
    ensures Sound(v) && v.devices == w.devices
  {
    match a
    case Press(d) =>
      if d < |w.nodes| then w.(nodes := w.nodes[d := w.nodes[d].(events := w.nodes[d].events + 1)]) else w
    case Timer(d) =>
      if d < |w.nodes| && w.nodes[d].ui != UiIdle then
        var n := w.nodes[d];
        w.(nodes := w.nodes[d := n.(timedOut := n.timedOut || n.ui != UiPrehandle, events := n.events + 1)])
      else w
    case Parse(d) =>
      if d < |w.nodes| && w.nodes[d].events > 0 then
        var (n, adverts) := ParseNode(w.devices[d], w.nodes[d].(events := w.nodes[d].events - 1));
        w.(nodes := w.nodes[d := n], air := w.air + adverts)
      else w
    case Hear(d, k, rssi) =>
      if d < |w.nodes| && k < |w.air| && w.air[k].sender != w.devices[d] then
        match w.air[k]
        case Discovery(sender) =>
          w.(nodes := w.nodes[d := HearDiscovery(w.nodes[d], Reception(rssi, sender.addr, sender.status))])
        case Confirmation(sender, peer) =>
          w.(nodes := w.nodes[d := HearConfirmation(w.devices[d], w.nodes[d], sender, peer)])
      else w
  }

  function Init(devices: seq<Device>): World
  {
    World(devices, seq(|devices|, _ => Node(UiIdle, false, 0, CLEARED, [])), [])
  }

  function DoAll(w: World, steps: seq<Step>): (v: World)
    requires Sound(w)
    ensures Sound(v) && v.devices == w.devices
    decreases |steps|
  {
    if steps == [] then w else DoAll(Do(w, steps[0]), steps[1..])
  }

  predicate Distinct(devices: seq<Device>)
  {
    && (forall i :: 0 <= i < |devices| ==> devices[i].addr != NO_ADDR)
    && (forall i, j :: 0 <= i < j < |devices| ==> devices[i].addr != devices[j].addr)
  }

  /** A table only lists devices that exist, as they are. */
  ghost predicate Truthful(t: Table, devices: seq<Device>)
  {
    forall k :: 0 <= k < TABLE_SIZE ==>
      if t[k].used then Device(t[k].addr, t[k].status) in devices else t[k].addr == NO_ADDR
  }

  ghost predicate TruthfulAdvert(a: Advert, devices: seq<Device>)
  {
    a.sender in devices && (a.Confirmation? ==> a.peer in devices || a.peer.addr == NO_ADDR)
  }

  /** The call is the one the true data of the two devices call for. */
  ghost predicate RightCall(own: Device, c: Call, devices: seq<Device>)
  {
    exists p :: p in devices && p != own && c.peer == p.addr
      && c == if Beats(own, p) then Call(Master, own.addr, p.addr, p.addr) else Call(Slave, p.addr, own.addr, p.addr)
  }

  ghost predicate Inv(w: World)
  {
    && Sound(w) && Distinct(w.devices)
    && (forall k :: 0 <= k < |w.air| ==> TruthfulAdvert(w.air[k], w.devices))
    && (forall d :: 0 <= d < |w.nodes| ==> Truthful(w.nodes[d].table, w.devices))
    && (forall d, i :: 0 <= d < |w.nodes| && 0 <= i < |w.nodes[d].calls| ==>
          RightCall(w.devices[d], w.nodes[d].calls[i], w.devices))
  }

  lemma ReceiveTruthful(t: Table, r: Reception, devices: seq<Device>)
    requires Truthful(t, devices) && Device(r.addr, r.status) in devices
    ensures Truthful(Receive(t, r), devices)
  {
    var k := Target(t, r);
    if k < TABLE_SIZE {
      var e := Receive(t, r)[k];
      assert e.used && Device(e.addr, e.status) == Device(r.addr, r.status);
      forall j | 0 <= j < TABLE_SIZE && j != k ensures Receive(t, r)[j] == t[j] { }
    }
  }

  lemma AddressIsIdentity(devices: seq<Device>, x: Device, y: Device)
    requires Distinct(devices) && x in devices && y in devices && x.addr == y.addr
    ensures x == y
  {
  }

  lemma HearConfirmationKeeps(w: World, d: nat, sender: Device, peer: Device)
    requires Inv(w) && d < |w.nodes| && sender != w.devices[d]
    requires TruthfulAdvert(Confirmation(sender, peer), w.devices)
    ensures forall c :: c in HearConfirmation(w.devices[d], w.nodes[d], sender, peer).calls ==>
      c in w.nodes[d].calls || RightCall(w.devices[d], c, w.devices)
  {
    var own := w.devices[d];
    if peer.addr == own.addr {
      AddressIsIdentity(w.devices, peer, own);
    }
  }

  lemma StepKeeps(w: World, a: Step)
    requires Inv(w)
    ensures Inv(Do(w, a))
  {
    hide Receive, RoleOf, Decide, Beats, Confirms;
    var v := Do(w, a);
    match a {
      case Hear(d, k, rssi) =>
        if d < |w.nodes| && k < |w.air| && w.air[k].sender != w.devices[d] {
          match w.air[k] {
            case Discovery(sender) => ReceiveTruthful(w.nodes[d].table, Reception(rssi, sender.addr, sender.status),
                w.devices);
            case Confirmation(sender, peer) => HearConfirmationKeeps(w, d, sender, peer);
          }
        }
      case _ =>
    }
  }

  lemma {:induction false} DoAllKeeps(w: World, steps: seq<Step>)
    requires Inv(w)
    ensures Inv(DoAll(w, steps))
    decreases |steps|
  {
    if steps != [] {
      StepKeeps(w, steps[0]);
      DoAllKeeps(Do(w, steps[0]), steps[1..]);
    }
  }

  /** In every run: whenever two devices have each taken a role towards the other, exactly one of them is
      master and both have passed the same pair of addresses, master first. */
  lemma RolesAgree(devices: seq<Device>, steps: seq<Step>, d: nat, e: nat, i: nat, j: nat)
    requires Distinct(devices) && d < |devices| && e < |devices|
    requires var w := DoAll(Init(devices), steps);
      && i < |w.nodes[d].calls| && j < |w.nodes[e].calls|
      && w.nodes[d].calls[i].peer == devices[e].addr && w.nodes[e].calls[j].peer == devices[d].addr
    ensures var w := DoAll(Init(devices), steps);
      var c, c' := w.nodes[d].calls[i], w.nodes[e].calls[j];
      && (c.role == Master <==> c'.role == Slave) && (c.role == Slave <==> c'.role == Master)
      && c.master == c'.master && c.slave == c'.slave
      && (c.master, c.slave) == if Outranks(devices[d], devices[e]) then (devices[d].addr, devices[e].addr)
                                else (devices[e].addr, devices[d].addr)
  {
    DoAllKeeps(Init(devices), steps);
    var w := DoAll(Init(devices), steps);
    var c, c' := w.nodes[d].calls[i], w.nodes[e].calls[j];
    assert RightCall(devices[d], c, devices) && RightCall(devices[e], c', devices);
    RightPeer(devices, devices[d], devices[e], c);
    RightPeer(devices, devices[e], devices[d], c');
    RolesDiffer(devices[d], devices[e]);
    BeatsIff(devices[d], devices[e]);
  }

  lemma RightPeer(devices: seq<Device>, own: Device, p: Device, c: Call)
    requires Distinct(devices) && own in devices && p in devices && RightCall(own, c, devices) && c.peer == p.addr
    ensures own.addr != p.addr
    ensures c == if Beats(own, p) then Call(Master, own.addr, p.addr, p.addr) else Call(Slave, p.addr, own.addr, p.addr)
  {
    var q :| q in devices && q != own && c.peer == q.addr
      && c == if Beats(own, q) then Call(Master, own.addr, q.addr, q.addr) else Call(Slave, q.addr, own.addr, q.addr);
    AddressIsIdentity(devices, p, q);
    if own.addr == p.addr { AddressIsIdentity(devices, own, p); }
  }

  /** A time-out takes a device back to idle from wherever it is, and nothing is advertised. */
  lemma TimeoutEnds(w: World, d: nat)
    requires Sound(w) && d < |w.nodes| && w.nodes[d].ui != UiIdle
    ensures var n, v := w.nodes[d], Do(w, Timer(d));
      && v.nodes[d].events == n.events + 1 && v.air == w.air
      && Do(v, Parse(d)).nodes[d] == n.(ui := UiIdle, timedOut := n.ui == UiPrehandle && n.timedOut)
      && Do(v, Parse(d)).air == w.air
  {
  }

  /** A confirmation that names a searching device ends its search: it goes on to confirm its own best candidate, and a
      time-out that came before no longer counts. Its table and its roles stay. */
  lemma ConfirmationEndsSearch(w: World, d: nat, k: nat, rssi: int)
    requires Sound(w) && d < |w.nodes| && k < |w.air| && w.air[k].Confirmation?
    requires w.air[k].sender != w.devices[d] && w.air[k].peer.addr == w.devices[d].addr
    requires w.nodes[d].ui == UiDiscovery
    ensures var v := Do(Do(w, Hear(d, k, rssi)), Parse(d));
      && v.nodes[d] == w.nodes[d].(ui := UiFormation, timedOut := false)
      && v.air == w.air + [Confirmation(w.devices[d], Chosen(w.nodes[d].table))]
  {
  }

  /** One that names a device which has confirmed its own choice gives it the role its rank makes it take, and ends the
      formation. */
  lemma ConfirmationEndsFormation(w: World, d: nat, k: nat, rssi: int)
    requires Sound(w) && d < |w.nodes| && k < |w.air| && w.air[k].Confirmation?
    requires var own, sender := w.devices[d], w.air[k].sender;
      sender != own && w.air[k].peer == own && sender.addr != own.addr
    requires w.nodes[d].ui == UiFormation
    ensures var own, sender, n := w.devices[d], w.air[k].sender, w.nodes[d];
      var call := if Outranks(own, sender) then Call(Master, own.addr, sender.addr, sender.addr)
                  else Call(Slave, sender.addr, own.addr, sender.addr);
      var v := Do(Do(w, Hear(d, k, rssi)), Parse(d));
      && v.nodes[d] == n.(ui := UiPrehandle, timedOut := false, calls := n.calls + [call]) && v.air == w.air
  {
    BeatsIff(w.devices[d], w.air[k].sender);
  }

  /** Before the time-out, the event that a candidate has been heard often enough moves the search on: the device
      confirms the candidate it heard most often. */
  lemma EnoughHeardConfirms(w: World, d: nat, k: nat, rssi: int)
    requires Sound(w) && d < |w.nodes| && k < |w.air| && w.air[k].Discovery? && w.air[k].sender != w.devices[d]
    requires w.nodes[d].ui == UiDiscovery
    ensures var sender := w.air[k].sender;
      var r := Reception(rssi, sender.addr, sender.status);
      var v := Do(w, Hear(d, k, rssi));
      && v.nodes[d].table == Receive(w.nodes[d].table, r)
      && (Confirms(w.nodes[d].table, r) ==>
            && v.nodes[d].events == w.nodes[d].events + 1
            && Do(v, Parse(d)).nodes[d].ui == UiFormation
            && Do(v, Parse(d)).air == w.air + [Confirmation(w.devices[d], Chosen(v.nodes[d].table))])
      && (!Confirms(w.nodes[d].table, r) ==> v.nodes[d].events == w.nodes[d].events)
  {
  }

  /** Four presses of the button with nothing heard take an idle device once round: it forgets earlier candidates,
      advertises a discovery and then a confirmation that names the blank entry, and is idle again. */
  lemma PressesComeRound(w: World, d: nat)
    requires Sound(w) && d < |w.nodes| && w.nodes[d].ui == UiIdle
    ensures var one := Do(Do(w, Press(d)), Parse(d));
      var two := Do(Do(one, Press(d)), Parse(d));
      var three := Do(Do(two, Press(d)), Parse(d));
      var four := Do(Do(three, Press(d)), Parse(d));
      && (one.nodes[d].ui, two.nodes[d].ui, three.nodes[d].ui) == (UiDiscovery, UiFormation, UiPrehandle)
      && four.nodes[d] == w.nodes[d].(timedOut := false, table := CLEARED)
      && four.air == w.air + [Discovery(w.devices[d]), Confirmation(w.devices[d], Chosen(CLEARED))]
  {
    var own := w.devices[d];
    var one := Do(Do(w, Press(d)), Parse(d));
    assert one.nodes[d] == w.nodes[d].(ui := UiDiscovery, timedOut := false, table := CLEARED);
    var two := Do(Do(one, Press(d)), Parse(d));
    assert two.nodes[d] == one.nodes[d].(ui := UiFormation);
    assert two.air == w.air + [Discovery(own), Confirmation(own, Chosen(CLEARED))];
  }

  // ---------- a run in which both take a role ----------

  /** The table after one reception from `x`. */
  function Only(x: Device, rssi: int): Table
  {
    [Entry(true, rssi, x.addr, x.status, 1), EMPTY, EMPTY]
  }

  function Pair(x: Device, y: Device, ui: UiState, tx: Table, ty: Table, air: seq<Advert>): World
  {
    World([x, y], [Node(ui, false, 0, tx, []), Node(ui, false, 0, ty, [])], air)
  }

  lemma DoTwo(w: World, a: Step, b: Step)
    requires Sound(w)
    ensures DoAll(w, [a, b]) == Do(Do(w, a), b)
  {
    assert [a, b][1..] == [b] && [b][1..] == [];
    assert DoAll(Do(w, a), [b]) == DoAll(Do(Do(w, a), b), []);
  }

  lemma {:induction false} DoAllSplit(w: World, first: seq<Step>, second: seq<Step>)
    requires Sound(w)
    ensures DoAll(w, first + second) == DoAll(DoAll(w, first), second)
    decreases |first|
  {
    if first == [] {
      assert first + second == second;
    } else {
      assert (first + second)[1..] == first[1..] + second;
      DoAllSplit(Do(w, first[0]), first[1..], second);
    }
  }

  lemma Search(x: Device, y: Device)
    ensures var half := DoAll(Init([x, y]), [Press(0), Parse(0)]);
      DoAll(half, [Press(1), Parse(1)]) == Pair(x, y, UiDiscovery, CLEARED, CLEARED, [Discovery(x), Discovery(y)])
  {
    var w := Init([x, y]);
    var idle := Node(UiIdle, false, 0, CLEARED, []);
    assert w == World([x, y], [idle, idle], []);
    DoTwo(w, Press(0), Parse(0));
    var half := Do(Do(w, Press(0)), Parse(0));
    assert half == World([x, y], [Node(UiDiscovery, false, 0, CLEARED, []), idle], [Discovery(x)]);
    DoTwo(half, Press(1), Parse(1));
  }

  lemma FirstHeard(x: Device, rssi: int)
    requires x.addr != NO_ADDR
    ensures var r := Reception(rssi, x.addr, x.status); Receive(CLEARED, r) == Only(x, rssi) && !Confirms(CLEARED, r)
    ensures Chosen(Only(x, rssi)) == x
  {
  }

  lemma Hearing(x: Device, y: Device, rssi: int)
    requires Distinct([x, y])
    ensures DoAll(Pair(x, y, UiDiscovery, CLEARED, CLEARED, [Discovery(x), Discovery(y)]),
        [Hear(0, 1, rssi), Hear(1, 0, rssi)])
      == Pair(x, y, UiDiscovery, Only(y, rssi), Only(x, rssi), [Discovery(x), Discovery(y)])
  {
    assert [x, y][0] == x && [x, y][1] == y;
    FirstHeard(x, rssi);
    FirstHeard(y, rssi);
    DoTwo(Pair(x, y, UiDiscovery, CLEARED, CLEARED, [Discovery(x), Discovery(y)]), Hear(0, 1, rssi), Hear(1, 0, rssi));
  }

  lemma Forming(x: Device, y: Device, rssi: int)
    requires Distinct([x, y])
    ensures var w := Pair(x, y, UiDiscovery, Only(y, rssi), Only(x, rssi), [Discovery(x), Discovery(y)]);
      DoAll(DoAll(w, [Press(0), Parse(0)]), [Press(1), Parse(1)])
          == Pair(x, y, UiFormation, Only(y, rssi), Only(x, rssi),
        [Discovery(x), Discovery(y), Confirmation(x, y), Confirmation(y, x)])
  {
    assert [x, y][0] == x && [x, y][1] == y;
    FirstHeard(x, rssi);
    FirstHeard(y, rssi);
    var w := Pair(x, y, UiDiscovery, Only(y, rssi), Only(x, rssi), [Discovery(x), Discovery(y)]);
    DoTwo(w, Press(0), Parse(0));
    DoTwo(Do(Do(w, Press(0)), Parse(0)), Press(1), Parse(1));
  }

  /** A pairing: both buttons, both searches heard, both buttons again, both confirmations heard. */
  function Meeting(rssi: int): seq<Step>
  {
    [Press(0), Parse(0)] + ([Press(1), Parse(1)] + ([Hear(0, 1, rssi), Hear(1, 0, rssi)]
      + ([Press(0), Parse(0)] + ([Press(1), Parse(1)] + [Hear(0, 3, rssi), Hear(1, 2, rssi)]))))
  }

  /** Every two devices can meet: in this run each takes a role towards the other, as RolesAgree wants it. */
  lemma BothTakeRoles(x: Device, y: Device, rssi: int)
    requires Distinct([x, y])
    ensures var w := DoAll(Init([x, y]), Meeting(rssi));
      && |w.nodes[0].calls| == 1 == |w.nodes[1].calls|
      && w.nodes[0].calls[0].peer == y.addr && w.nodes[1].calls[0].peer == x.addr
  {
    hide Do, DoAll;
    var two, hear := [Press(1), Parse(1)], [Hear(0, 1, rssi), Hear(1, 0, rssi)];
    var one, last := [Press(0), Parse(0)], [Hear(0, 3, rssi), Hear(1, 2, rssi)];
    var w := Init([x, y]);
    DoAllSplit(w, one, two + (hear + (one + (two + last))));
    DoAllSplit(DoAll(w, one), two, hear + (one + (two + last)));
    Search(x, y);
    var found := Pair(x, y, UiDiscovery, CLEARED, CLEARED, [Discovery(x), Discovery(y)]);
    DoAllSplit(found, hear, one + (two + last));
    Hearing(x, y, rssi);
    var heard := Pair(x, y, UiDiscovery, Only(y, rssi), Only(x, rssi), [Discovery(x), Discovery(y)]);
    DoAllSplit(heard, one, two + last);
    DoAllSplit(DoAll(heard, one), two, last);
    Forming(x, y, rssi);
    Deciding(x, y, rssi);
  }

  lemma Deciding(x: Device, y: Device, rssi: int)
    requires Distinct([x, y])
    ensures var w := Pair(x, y, UiFormation, Only(y, rssi), Only(x, rssi),
        [Discovery(x), Discovery(y), Confirmation(x, y), Confirmation(y, x)]);
      var v := DoAll(w, [Hear(0, 3, rssi), Hear(1, 2, rssi)]);
      && |v.nodes[0].calls| == 1 == |v.nodes[1].calls|
      && v.nodes[0].calls[0].peer == y.addr && v.nodes[1].calls[0].peer == x.addr
  {
    hide RoleOf;
    assert [x, y][0] == x && [x, y][1] == y;
    var w := Pair(x, y, UiFormation, Only(y, rssi), Only(x, rssi),
      [Discovery(x), Discovery(y), Confirmation(x, y), Confirmation(y, x)]);
    DoTwo(w, Hear(0, 3, rssi), Hear(1, 2, rssi));
  }
}
