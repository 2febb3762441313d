/**
  The connections of the A2DP sink: a list of devices, each with a state of its own, and the device
  that is streaming.
 */
module A2dpSink {
  import opened Sequences
  import opened Wrappers

  /** A device address; the one that is all zeros stands for no device. */
  type Address = nat
  const NO_ADDRESS: Address := 0

  datatype DeviceState = Disconnected | Pending | Connected

  /** `A2dp_Device`, as far as the handlers of connection and streaming events use it. */
  datatype Device = Device(
    address: Address, connected: Address, connecting: Address, state: DeviceState, codecType: nat, codecConfig: nat)

  datatype Event =
    | ApiConnectReq | ApiDisconnectReq | DisconnectedCb | ConnectingCb | ConnectedCb | DisconnectingCb
    | FocusRequestCb | AudioSuspended | AudioStopped | AudioStarted
    | CodecConfig(codecType: nat, config: Option<nat>) | OtherEvent
  {
    predicate IsConnectionEvent() {
      ApiConnectReq? || ApiDisconnectReq? || DisconnectedCb? || ConnectingCb? || ConnectedCb? || DisconnectingCb?
    }

    predicate IsStart() { AudioStarted? || FocusRequestCb? }

    predicate IsStop() { AudioSuspended? || AudioStopped? }
  }

  /** What the sink asks of others: the stack, the remote control, and the streaming thread. */
  datatype Post =
    | Connect(device: Address) | Disconnect(device: Address) | Pause(device: Address)
    | OpenInputStream | CloseAudioStream | RequestControl | ReleaseControl | StreamingDisconnected
    | FlushRelay | StreamingStart | StreamingStop | StreamingDisabled | StartDone(status: bool) | StopDone(status: bool)

  // ------------------------------------------------------------------------------------------
  // The machine of one device

  /** A device that is not listed is disconnected; `room` says whether another one can be listed. */
  function Next(s: DeviceState, e: Event, room: bool): DeviceState {
    match s
    case Disconnected =>
      if !room then Disconnected
      else if e.ApiConnectReq? || e.ConnectingCb? then Pending
      else if e.ConnectedCb? then Connected
      else Disconnected
    case Pending =>
      if e.ConnectedCb? then Connected else if e.DisconnectedCb? then Disconnected else Pending
    case Connected =>
      if e.ApiDisconnectReq? || e.DisconnectingCb? then Pending
      else if e.DisconnectedCb? then Disconnected
      else Connected
  }

  /** The streaming device after event `e` of device `a`, which was in state `s`. */
  function NextStreaming(streaming: Address, s: DeviceState, e: Event, a: Address): Address {
    if s.Connected? && e.IsStart() then a
    else if streaming == a && s.Connected? && e.IsStop() then NO_ADDRESS
    else if streaming == a && !s.Disconnected? && e.DisconnectedCb? then NO_ADDRESS
    else streaming
  }

  function Posts(streaming: Address, s: DeviceState, e: Event, a: Address, room: bool, useHal: bool): seq<Post> {
    match s
    case Disconnected =>
      if room && e.ApiConnectReq? then [Connect(a)] else if room && e.ConnectedCb? then [OpenInputStream] else []
    case Pending =>
      if e.ConnectedCb? then [OpenInputStream]
      else if e.DisconnectedCb? && streaming == a then [StreamingDisconnected]
      else []
    case Connected =>
      if e.ApiDisconnectReq? then (if streaming == a then [CloseAudioStream] else []) + [Disconnect(a)]
      else if e.DisconnectedCb? then (if streaming == a then [CloseAudioStream, StreamingDisconnected] else [])
      else if e.DisconnectingCb? then (if streaming == a then [CloseAudioStream] else [])
      else if e.IsStart() then
        (if streaming != NO_ADDRESS && streaming != a
         then [Pause(streaming), if useHal then CloseAudioStream else ReleaseControl] else [])
        + [RequestControl]
      else if e.IsStop() && streaming == a then [ReleaseControl]
      else []
  }

  /**
    What is posted follows from the states: an input stream is opened exactly for a new connection,
    the audio of the streaming device is closed whenever it stops being connected, and the stack is
    asked to connect or disconnect exactly as the application asked.
   */
  lemma PostsFollowStates(streaming: Address, s: DeviceState, e: Event, a: Address, room: bool, useHal: bool)
    ensures var posts, s' := Posts(streaming, s, e, a, room, useHal), Next(s, e, room);
            && (OpenInputStream in posts <==> s'.Connected? && !s.Connected?)
            && (streaming == a && s.Connected? && !s'.Connected? ==> CloseAudioStream in posts)
            && (forall b :: Connect(b) in posts <==> b == a && e.ApiConnectReq? && s.Disconnected? && s'.Pending?)
            && (forall b :: Disconnect(b) in posts <==> b == a && e.ApiDisconnectReq? && s.Connected?)
            && (forall b :: Pause(b) in posts <==> b == streaming && NextStreaming(streaming, s, e, a) == a != b
                                                   && b != NO_ADDRESS)
  {}

  /** What is queued for relaying is thrown away before a listed device is to disconnect, or has. */
  function Flushed(relay: bool, s: DeviceState, e: Event): seq<Post> {
    if relay && !s.Disconnected? && (e.ApiDisconnectReq? || e.DisconnectingCb? || e.DisconnectedCb?)
    then [FlushRelay] else []
  }

  // ------------------------------------------------------------------------------------------
  // The list

  /** `FindDeviceByAddr`: the index of the device, or the length of the list. */
  function Find(ds: seq<Device>, a: Address): (k: nat)
    ensures k <= |ds| && (k < |ds| ==> ds[k].address == a)
    ensures forall i :: 0 <= i < k ==> ds[i].address != a
  {
    if ds == [] || ds[0].address == a then 0 else 1 + Find(ds[1..], a)
  }

  function NewDevice(a: Address): Device { Device(a, NO_ADDRESS, NO_ADDRESS, Disconnected, 0, 0) }

  /** The listed device with this address; one that is not listed is as if it had just been made. */
  function DeviceOf(ds: seq<Device>, a: Address): Device {
    if Find(ds, a) < |ds| then ds[Find(ds, a)] else NewDevice(a)
  }

  function StateOf(ds: seq<Device>, a: Address): DeviceState { DeviceOf(ds, a).state }

  ghost predicate Unique(ds: seq<Device>) {
    forall i, j :: 0 <= i < j < |ds| ==> ds[i].address != ds[j].address
  }

  /** Between events no listed device is disconnected, and a connected one knows its own address. */
  predicate Settled(d: Device) {
    !d.state.Disconnected? && (d.state.Connected? ==> d.connected == d.address && d.connecting == NO_ADDRESS)
  }

  ghost predicate AllSettled(ds: seq<Device>) {
    forall d :: d in ds ==> Settled(d)
  }

  predicate Listed(ds: seq<Device>, a: Address) {
    Find(ds, a) < |ds|
  }

  lemma FindIs(ds: seq<Device>, k: nat)
    requires Unique(ds) && k < |ds|
    ensures Find(ds, ds[k].address) == k
  {}

  lemma ListedMeansConnected(ds: seq<Device>, a: Address)
    requires AllSettled(ds)
    ensures StateOf(ds, a).Disconnected? <==> !Listed(ds, a)
  {
    if Listed(ds, a) {
      assert Settled(ds[Find(ds, a)]);
    }
  }

  lemma FindAppended(ds: seq<Device>, d: Device, b: Address)
    ensures Find(ds + [d], b) == if Listed(ds, b) then Find(ds, b) else if b == d.address then |ds| else |ds| + 1
  {
    var es := ds + [d];
    assert es[|ds|] == d && forall i :: 0 <= i < |ds| ==> es[i] == ds[i];
  }

  lemma FindChanged(ds: seq<Device>, k: nat, d: Device, b: Address)
    requires k < |ds| && d.address == ds[k].address
    ensures Find(ds[k := d], b) == Find(ds, b)
  {
    var es := ds[k := d];
    assert forall i :: 0 <= i < |ds| ==> es[i].address == ds[i].address;
  }

  lemma ErasedKeepsOthers(ds: seq<Device>, k: nat, b: Address)
    requires Unique(ds) && k < |ds|
    ensures Unique(Without(ds, k))
    ensures Listed(Without(ds, k), b) <==> Listed(ds, b) && b != ds[k].address
    ensures b != ds[k].address ==> DeviceOf(Without(ds, k), b) == DeviceOf(ds, b)
  {
    var es := Without(ds, k);
    assert forall i :: 0 <= i < |es| ==> es[i] == ds[if i < k then i else i + 1];
    var m := Find(ds, b);
    if m < |ds| && m != k {
      var m' := if m < k then m else m - 1;
      assert es[m'] == ds[m];
      FindIs(es, m');
    }
  }

  // ------------------------------------------------------------------------------------------
  // Runs

  function Told(wants: bool, p: Post): bool {
    match p
    case RequestControl => true
    case ReleaseControl => false
    case StreamingDisconnected => false
    case StreamingDisabled => false
    case _ => wants
  }

  /** The streaming thread was last told to ask for the audio path, and has not been disabled since. */
  predicate WantsFocus(posted: seq<Post>)
    decreases |posted|
  {
    posted != [] && Told(WantsFocus(posted[..|posted| - 1]), posted[|posted| - 1])
  }

  lemma WantsFocusNext(posted: seq<Post>, p: Post)
    ensures WantsFocus(posted + [p]) == Told(WantsFocus(posted), p)
  {
    assert (posted + [p])[..|posted|] == posted;
  }

  lemma WantsFocusAfter(posted: seq<Post>, p: Post, q: Post, r: Post)
    ensures WantsFocus(posted + []) == WantsFocus(posted)
    ensures WantsFocus(posted + [p]) == Told(WantsFocus(posted), p)
    ensures WantsFocus(posted + [p, q]) == Told(Told(WantsFocus(posted), p), q)
    ensures WantsFocus(posted + [p, q, r]) == Told(Told(Told(WantsFocus(posted), p), q), r)
  {
    hide WantsFocus;
    WantsFocusNext(posted, p);
    WantsFocusNext(posted + [p], q);
    WantsFocusNext(posted + [p, q], r);
    assert posted + [] == posted && posted + [p] + [q] == posted + [p, q];
    assert posted + [p, q] + [r] == posted + [p, q, r];
  }

  /** Whether the thread is to ask for the path after event `e` of device `a`, which was in state `s`. */
  predicate NextFocus(wants: bool, streaming: Address, s: DeviceState, e: Event, a: Address) {
    if s.Connected? && e.IsStart() then true
    else if streaming == a && s.Connected? && e.IsStop() then false
    else if streaming == a && !s.Disconnected? && e.DisconnectedCb? then false
    else wants
  }

  lemma FocusAfter(
    posted: seq<Post>, streaming: Address, s: DeviceState, e: Event, a: Address, room: bool, useHal: bool)
    ensures WantsFocus(posted + Posts(streaming, s, e, a, room, useHal))
         == NextFocus(WantsFocus(posted), streaming, s, e, a)
  {
    hide WantsFocus;
    var ps := Posts(streaming, s, e, a, room, useHal);
    assert |ps| <= 3;
    var p, q, r := if |ps| > 0 then ps[0] else RequestControl, if |ps| > 1 then ps[1] else RequestControl,
                   if |ps| > 2 then ps[2] else RequestControl;
    assert ps == [] || ps == [p] || ps == [p, q] || ps == [p, q, r];
    WantsFocusAfter(posted, p, q, r);
  }

  /**
    One event keeps it: there is a streaming device exactly while the thread is to ask for the path.
    It fails only if a device whose address is all zeros starts to stream.
   */
  lemma FocusFollowsStreaming(
    posted: seq<Post>, streaming: Address, s: DeviceState, e: Event, a: Address, room: bool, useHal: bool)
    requires streaming != NO_ADDRESS <==> WantsFocus(posted)
    requires s.Disconnected? && WantsFocus(posted) ==> streaming != a
    ensures var streaming', posted' :=
              NextStreaming(streaming, s, e, a), posted + Posts(streaming, s, e, a, room, useHal);
            (streaming' != NO_ADDRESS <==> WantsFocus(posted')) <==> !(a == NO_ADDRESS && s.Connected? && e.IsStart())
  {
    hide WantsFocus, Posts;
    FocusAfter(posted, streaming, s, e, a, room, useHal);
  }

  /** It holds in every consistent state in which no device of that address is listed. */
  lemma FocusMeansStreaming(max: nat, ds: seq<Device>, k: nat, streaming: Address, posted: seq<Post>)
    requires Consistent(max, ds, k, streaming, posted) && !Listed(ds, NO_ADDRESS)
    ensures streaming != NO_ADDRESS <==> WantsFocus(posted)
  {}

  /** Holds between events; while one is handled, device `k` may be in any state. */
  ghost predicate Consistent(max: nat, ds: seq<Device>, k: nat, streaming: Address, posted: seq<Post>) {
    && |ds| <= max && Unique(ds)
    && (forall i :: 0 <= i < |ds| && i != k ==> Settled(ds[i]))
    && (streaming != NO_ADDRESS ==> WantsFocus(posted))
    && (WantsFocus(posted) ==> Listed(ds, streaming))
  }

  /** The addresses and the codec of a device after an event that does not drop it. */
  ghost predicate Updated(e: Event, d: Device, d': Device) {
    && (e.CodecConfig? ==>
          && d'.codecType == e.codecType
          && d'.codecConfig == match e.config case None => d.codecConfig case Some(config) => config)
    && (!e.CodecConfig? ==> d'.codecType == d.codecType && d'.codecConfig == d.codecConfig)
    && (if e.ConnectedCb? && d.state != Connected then
          d'.connected == d.address && d'.connecting == NO_ADDRESS
        else if (e.ApiConnectReq? || e.ConnectingCb?) && d.state == Disconnected then
          d'.connected == d.connected && d'.connecting == d.address
        else if e.ApiDisconnectReq? && d.state == Connected then
          d'.connected == NO_ADDRESS && d'.connecting == NO_ADDRESS
        else
          d'.connected == d.connected && d'.connecting == d.connecting)
  }

  /** What a handler does to the list, the streaming device and the posts. */
  ghost predicate Handled(
    useHal: bool, e: Event, k: nat, ds: seq<Device>, streaming: Address, posted: seq<Post>,
    ds': seq<Device>, streaming': Address, posted': seq<Post>)
    requires k < |ds|
  {
    var d := ds[k];
    var s := Next(d.state, e, true);
    && (if s.Disconnected? then ds' == Without(ds, k)
        else |ds'| == |ds| && ds' == ds[k := ds'[k]]
             && ds'[k].address == d.address && ds'[k].state == s && Settled(ds'[k]) && Updated(e, d, ds'[k]))
    && streaming' == NextStreaming(streaming, d.state, e, d.address)
    && posted' == posted + Posts(streaming, d.state, e, d.address, true, useHal)
  }

  /** Of all devices only the one at `k` has moved on. */
  lemma HandledMovesOne(
    useHal: bool, e: Event, k: nat, ds: seq<Device>, streaming: Address, posted: seq<Post>,
    ds': seq<Device>, streaming': Address, posted': seq<Post>, b: Address)
    requires Unique(ds) && k < |ds|
    requires Handled(useHal, e, k, ds, streaming, posted, ds', streaming', posted')
    ensures b != ds[k].address ==> DeviceOf(ds', b) == DeviceOf(ds, b)
    ensures b == ds[k].address ==> StateOf(ds', b) == Next(ds[k].state, e, true)
    ensures b == ds[k].address && Listed(ds', b) ==> Updated(e, ds[k], DeviceOf(ds', b))
    ensures Listed(ds', b) <==> if b == ds[k].address then !Next(ds[k].state, e, true).Disconnected? else Listed(ds, b)
    ensures Unique(ds') && |ds'| <= |ds|
  {
    FindIs(ds, k);
    if Next(ds[k].state, e, true).Disconnected? {
      ErasedKeepsOthers(ds, k, b);
    } else {
      FindChanged(ds, k, ds'[k], b);
    }
  }

  lemma HandledSettles(
    useHal: bool, e: Event, k: nat, ds: seq<Device>, streaming: Address, posted: seq<Post>,
    ds': seq<Device>, streaming': Address, posted': seq<Post>)
    requires k < |ds| && forall i :: 0 <= i < |ds| && i != k ==> Settled(ds[i])
    requires Handled(useHal, e, k, ds, streaming, posted, ds', streaming', posted')
    ensures forall i :: 0 <= i < |ds'| ==> Settled(ds'[i])
  {
    if Next(ds[k].state, e, true).Disconnected? {
      assert forall i :: 0 <= i < |ds'| ==> ds'[i] == ds[if i < k then i else i + 1];
    }
  }

  /** After a handler, the list is consistent. */
  lemma HandledIsConsistent(
    max: nat, useHal: bool, e: Event, k: nat, ds: seq<Device>, streaming: Address, posted: seq<Post>,
    ds': seq<Device>, streaming': Address, posted': seq<Post>)
    requires Consistent(max, ds, k, streaming, posted) && k < |ds|
    requires ds[k].state.Disconnected? && WantsFocus(posted) ==> streaming != ds[k].address
    requires Handled(useHal, e, k, ds, streaming, posted, ds', streaming', posted')
    ensures Consistent(max, ds', |ds'|, streaming', posted')
  {
    hide WantsFocus, Unique, Settled, Listed, Posts;
    var d := ds[k];
    FocusAfter(posted, streaming, d.state, e, d.address, true, useHal);
    HandledSettles(useHal, e, k, ds, streaming, posted, ds', streaming', posted');
    HandledMovesOne(useHal, e, k, ds, streaming, posted, ds', streaming', posted', streaming');
  }

  /** What an event of device `a` does: the device moves as its own machine says, and no other does. */
  ghost predicate Moved(
    max: nat, useHal: bool, e: Event, a: Address, ds: seq<Device>, streaming: Address, posted: seq<Post>,
    ds': seq<Device>, streaming': Address, posted': seq<Post>)
  {
    var s, room := StateOf(ds, a), |ds| < max;
    && StateOf(ds', a) == Next(s, e, room)
    && (Listed(ds', a) ==> Updated(e, DeviceOf(ds, a), DeviceOf(ds', a)))
    && (forall b {:trigger DeviceOf(ds', b)} :: b != a ==> DeviceOf(ds', b) == DeviceOf(ds, b))
    && streaming' == NextStreaming(streaming, s, e, a)
    && posted' == posted + Posts(streaming, s, e, a, room, useHal)
  }

  lemma NothingMoves(
    max: nat, useHal: bool, e: Event, a: Address, ds: seq<Device>, streaming: Address, posted: seq<Post>)
    requires Next(StateOf(ds, a), e, |ds| < max) == StateOf(ds, a)
    requires Listed(ds, a) ==> e.ApiConnectReq? && StateOf(ds, a) != Disconnected
    requires NextStreaming(streaming, StateOf(ds, a), e, a) == streaming
    requires Posts(streaming, StateOf(ds, a), e, a, |ds| < max, useHal) == []
    ensures Moved(max, useHal, e, a, ds, streaming, posted, ds, streaming, posted)
  {
    assert posted + [] == posted;
  }

  /** The handler of a listed device. */
  lemma FoundMoves(
    max: nat, useHal: bool, e: Event, k: nat, ds: seq<Device>, streaming: Address, posted: seq<Post>,
    ds': seq<Device>, streaming': Address, posted': seq<Post>)
    requires Consistent(max, ds, |ds|, streaming, posted) && k < |ds|
    requires Handled(useHal, e, k, ds, streaming, posted, ds', streaming', posted')
    ensures Consistent(max, ds', |ds'|, streaming', posted')
    ensures Moved(max, useHal, e, ds[k].address, ds, streaming, posted, ds', streaming', posted')
  {
    hide WantsFocus;
    FindIs(ds, k);
    assert Settled(ds[k]);
    var a := ds[k].address;
    HandledMovesOne(useHal, e, k, ds, streaming, posted, ds', streaming', posted', a);
    forall b | b != a ensures DeviceOf(ds', b) == DeviceOf(ds, b) {
      HandledMovesOne(useHal, e, k, ds, streaming, posted, ds', streaming', posted', b);
    }
    HandledIsConsistent(max, useHal, e, k, ds, streaming, posted, ds', streaming', posted');
  }

  /** The handler of a device that has just been listed. */
  lemma EnlistedMoves(
    max: nat, useHal: bool, e: Event, d: Device, ds: seq<Device>, streaming: Address, posted: seq<Post>,
    ds': seq<Device>, streaming': Address, posted': seq<Post>)
    requires Consistent(max, ds, |ds|, streaming, posted) && |ds| < max && !Listed(ds, d.address)
    requires d == NewDevice(d.address)
    requires Handled(useHal, e, |ds|, ds + [d], streaming, posted, ds', streaming', posted')
    ensures Consistent(max, ds', |ds'|, streaming', posted')
    ensures Moved(max, useHal, e, d.address, ds, streaming, posted, ds', streaming', posted')
  {
    hide WantsFocus;
    var es, k := ds + [d], |ds|;
    FindAppended(ds, d, streaming);
    assert Unique(es) && es[k] == d;
    FindAppended(ds, d, d.address);
    HandledMovesOne(useHal, e, k, es, streaming, posted, ds', streaming', posted', d.address);
    forall b | b != d.address ensures DeviceOf(ds', b) == DeviceOf(ds, b) {
      hide Handled;
      HandledMovesOne(useHal, e, k, es, streaming, posted, ds', streaming', posted', b);
      FindAppended(ds, d, b);
    }
    HandledIsConsistent(max, useHal, e, k, es, streaming, posted, ds', streaming', posted');
  }

  // ------------------------------------------------------------------------------------------
  // What events mean

  /**
    The state of device `a` after an event of its own: a disconnected callback drops it, a connected
    one connects it if it is listed or can be, a request and a connecting callback list it, and what
    announces the end of a connection makes it pending.  Nothing else changes its state, and no event
    that of another device.
   */
  ghost predicate Stepped(max: nat, e: Event, a: Address, ds: seq<Device>, ds': seq<Device>) {
    var s, s' := StateOf(ds, a), StateOf(ds', a);
    && (e.DisconnectedCb? ==> s' == Disconnected)
    && (e.ConnectedCb? && (s != Disconnected || |ds| < max) ==> s' == Connected)
    && ((e.ConnectingCb? || e.ApiConnectReq?) && s == Disconnected && |ds| < max ==> s' == Pending)
    && ((e.ConnectingCb? || e.ApiConnectReq?) && s != Disconnected ==> s' == s)
    && ((e.ApiDisconnectReq? || e.DisconnectingCb?) && s == Connected ==> s' == Pending)
    && ((e.ApiDisconnectReq? || e.DisconnectingCb?) && s != Connected ==> s' == s)
    && (s == Disconnected && |ds| >= max ==> s' == Disconnected)
    && (!e.IsConnectionEvent() ==> s' == s)
    && (forall b {:trigger StateOf(ds', b)} :: b != a ==> StateOf(ds', b) == StateOf(ds, b))
  }

  lemma StateAfter(
    max: nat, useHal: bool, e: Event, a: Address, ds: seq<Device>, streaming: Address, posted: seq<Post>,
    ds': seq<Device>, streaming': Address, posted': seq<Post>)
    requires AllSettled(ds')
    requires Moved(max, useHal, e, a, ds, streaming, posted, ds', streaming', posted')
    ensures Stepped(max, e, a, ds, ds')
    ensures forall b :: Listed(ds', b) <==> StateOf(ds', b) != Disconnected
    ensures Listed(ds', a) ==> Updated(e, DeviceOf(ds, a), DeviceOf(ds', a))
    ensures forall b {:trigger DeviceOf(ds', b)} :: b != a ==> DeviceOf(ds', b) == DeviceOf(ds, b)
  {
    forall b ensures Listed(ds', b) <==> StateOf(ds', b) != Disconnected {
      ListedMeansConnected(ds', b);
    }
  }

  /** The events that list a device or drop it, and those that connect it or end its connection. */
  predicate Lists(e: Event) { e.ApiConnectReq? || e.ConnectingCb? || e.ConnectedCb? || e.DisconnectedCb? }

  predicate Links(e: Event) { e.ConnectedCb? || e.ApiDisconnectReq? || e.DisconnectingCb? || e.DisconnectedCb? }

  /** The last event of the device that is of these kinds. */
  function LastOf(events: seq<(Event, Address)>, b: Address, kinds: Event -> bool): Option<Event> {
    if events == [] then None
    else
      var (e, a) := events[|events| - 1];
      if a == b && kinds(e) then Some(e) else LastOf(events[..|events| - 1], b, kinds)
  }

  /** The lists of devices that a run of events goes through. */
  ghost predicate History(max: nat, events: seq<(Event, Address)>, lists: seq<seq<Device>>) {
    && |lists| == |events| + 1 && lists[0] == []
    && forall i :: 0 <= i < |events| ==> Stepped(max, events[i].0, events[i].1, lists[i], lists[i + 1])
  }

  /** What a step means for the device `b`. */
  lemma StepOfRun(max: nat, e: Event, a: Address, ds: seq<Device>, ds': seq<Device>, b: Address)
    requires Stepped(max, e, a, ds, ds')
    ensures var s, s' := StateOf(ds, b), StateOf(ds', b);
            && (a != b || !(Lists(e) || Links(e)) ==> s' == s)
            && (a == b && Lists(e) && !e.DisconnectedCb? && |ds| < max ==> s' != Disconnected)
            && (a == b && e.DisconnectedCb? ==> s' == Disconnected)
            && (!(a == b && Lists(e)) ==> (s' == Disconnected <==> s == Disconnected))
            && (a == b && e.ConnectedCb? && |ds| < max ==> s' == Connected)
            && (a == b && Links(e) && !e.ConnectedCb? ==> s' != Connected)
            && (!(a == b && Links(e)) ==> (s' == Connected <==> s == Connected))
  {}

  /**
    After any run, a listed device was last listed and not dropped since, and a connected one was last
    connected; and if there was always room, the last such events decide.
   */
  lemma {:induction false} StateAfterRun(max: nat, events: seq<(Event, Address)>, lists: seq<seq<Device>>, b: Address)
    requires History(max, events, lists)
    ensures var s, listing, link := StateOf(lists[|events|], b), LastOf(events, b, Lists), LastOf(events, b, Links);
            && (s != Disconnected ==> listing.Some? && listing != Some(DisconnectedCb))
            && (s == Connected ==> link == Some(ConnectedCb))
            && ((forall i :: 0 <= i < |events| ==> |lists[i]| < max) ==>
                  && (s != Disconnected <==> listing.Some? && listing != Some(DisconnectedCb))
                  && (s == Connected <==> link == Some(ConnectedCb)))
    decreases |events|
  {
    if events != [] {
      var k := |events| - 1;
      hide StateOf, Stepped;
      assert lists[..k + 1][k] == lists[k];
      assert History(max, events[..k], lists[..k + 1]);
      StateAfterRun(max, events[..k], lists[..k + 1], b);
      StepOfRun(max, events[k].0, events[k].1, lists[k], lists[k + 1], b);
    }
  }

  /**
    The streaming device: a connected device that starts to stream, or asks for the path, becomes it;
    it ceases to be when its stream stops or it is disconnected.
   */
  lemma StreamingAfter(streaming: Address, s: DeviceState, e: Event, a: Address)
    ensures var streaming' := NextStreaming(streaming, s, e, a);
            && ((e.AudioStarted? || e.FocusRequestCb?) && s == Connected ==> streaming' == a)
            && ((e.AudioSuspended? || e.AudioStopped?) && s == Connected && streaming == a ==> streaming' == NO_ADDRESS)
            && (e.DisconnectedCb? && s != Disconnected && streaming == a ==> streaming' == NO_ADDRESS)
            && (streaming' != streaming ==>
                  || ((e.AudioStarted? || e.FocusRequestCb?) && s == Connected)
                  || ((e.AudioSuspended? || e.AudioStopped?) && s == Connected && streaming == a)
                  || (e.DisconnectedCb? && s != Disconnected && streaming == a))
  {}

  /** All that is posted for an event of a device that is not connected. */
  lemma PostsBeforeConnection(
    streaming: Address, s: DeviceState, e: Event, a: Address, room: bool, useHal: bool)
    requires s != Connected
    ensures var posts := Posts(streaming, s, e, a, room, useHal);
            posts == if e.ApiConnectReq? && s == Disconnected && room then [Connect(a)]
                     else if e.ConnectedCb? && (s == Pending || room) then [OpenInputStream]
                     else if e.DisconnectedCb? && s == Pending && streaming == a then [StreamingDisconnected]
                     else []
  {}

  /** And of a connected one: its stream is closed before it goes, and a stream of another one before its own starts. */
  lemma PostsOfConnection(streaming: Address, e: Event, a: Address, room: bool, useHal: bool)
    ensures var posts, mine := Posts(streaming, Connected, e, a, room, useHal), streaming == a;
            && (e.ApiDisconnectReq? ==> posts == if mine then [CloseAudioStream, Disconnect(a)] else [Disconnect(a)])
            && (e.DisconnectingCb? ==> posts == if mine then [CloseAudioStream] else [])
            && (e.DisconnectedCb? ==> posts == if mine then [CloseAudioStream, StreamingDisconnected] else [])
            && (e.AudioStarted? || e.FocusRequestCb? ==>
                  posts == if mine || streaming == NO_ADDRESS then [RequestControl]
                           else if useHal then [Pause(streaming), CloseAudioStream, RequestControl]
                           else [Pause(streaming), ReleaseControl, RequestControl])
            && (e.AudioSuspended? || e.AudioStopped? ==> posts == if mine then [ReleaseControl] else [])
            && (e.ApiConnectReq? || e.ConnectingCb? || e.ConnectedCb? ==> posts == [])
            && (e.CodecConfig? || e.OtherEvent? ==> posts == [])
  {}

  /** The relay is flushed exactly if it is in use and a device that is listed is to disconnect, or has. */
  lemma FlushedBeforeDisconnection(relay: bool, s: DeviceState, e: Event)
    ensures var flushes := Flushed(relay, s, e);
            && (flushes == [] || flushes == [FlushRelay])
            && (FlushRelay in flushes <==>
                  && relay && s in {Pending, Connected}
                  && (e.ApiDisconnectReq? || e.DisconnectingCb? || e.DisconnectedCb?))
  {}

  class Sink {
    const maxConnections: nat
    const useHal: bool
    /** `relay_sink_data` */
    const relay: bool
    var started: bool
    var devices: seq<Device>
    var streaming: Address
    /** Everything that was posted or called, in order. */
    var posted: seq<Post>

    ghost predicate Valid()
      reads this
    {
      Consistent(maxConnections, devices, |devices|, streaming, posted)
    }

    constructor (maxConnections: nat, useHal: bool, relay: bool)
      ensures Valid() && this.maxConnections == maxConnections && this.useHal == useHal && this.relay == relay
      ensures !started && devices == [] && posted == []
    {
      this.maxConnections, this.useHal, this.relay := maxConnections, useHal, relay;
      started, devices, streaming, posted := false, [], NO_ADDRESS, [];
    }

    /** The sink handles events from now on, unless the stack offers no sink. */
    method HandleEnableSink(hasStack: bool, hasSink: bool)
      requires Valid()
      modifies this`started, this`posted
      ensures Valid() && started == (old(started) || (hasStack && hasSink))
      ensures posted == old(posted)
                + (if hasStack then [StartDone(hasSink)] else [])
                + (if hasStack && !hasSink then [] else [StreamingStart])
    {
      hide WantsFocus;
      ghost var was := posted;
      if hasStack {
        if !hasSink {
          posted := posted + [StartDone(false)];
          WantsFocusNext(was, StartDone(false));
          return;
        }
        started := true;
        posted := posted + [StartDone(true)];
        WantsFocusNext(was, StartDone(true));
      }
      WantsFocusNext(posted, StreamingStart);
      posted := posted + [StreamingStart];
    }

    /** No event is handled from now on; the streaming thread is told to stop. */
    method HandleDisableSink()
      requires Valid()
      modifies this`started, this`posted
      ensures Valid() && !started && posted == old(posted) + [StreamingStop]
    {
      hide WantsFocus;
      WantsFocusNext(posted, StreamingStop);
      started := false;
      posted := posted + [StreamingStop];
    }

    /** The streaming thread stops, and forgets the streaming device. */
    method HandleDisableSinkStreaming()
      requires Valid()
      modifies this`streaming, this`posted
      ensures Valid() && streaming == NO_ADDRESS && posted == old(posted) + [StreamingDisabled]
    {
      hide WantsFocus;
      WantsFocusNext(posted, StreamingDisabled);
      streaming := NO_ADDRESS;
      posted := posted + [StreamingDisabled];
    }

    /** All devices are dropped; that is sound if and only if the thread has forgotten the streaming one. */
    method HandleSinkStreamingDisableDone()
      requires Valid()
      modifies this`devices, this`posted
      ensures devices == [] && posted == old(posted) + [StopDone(true)]
      ensures Valid() <==> !WantsFocus(old(posted))
    {
      hide WantsFocus;
      WantsFocusNext(posted, StopDone(true));
      if |devices| != 0 {
        devices := [];
      }
      posted := posted + [StopDone(true)];
    }

    /** `change_state`; a device that is disconnected is taken off the list. */
    method ChangeState(k: nat, s: DeviceState)
      requires k < |devices|
      modifies this`devices, this`streaming, this`posted
      ensures devices == if s.Disconnected? then Without(old(devices), k)
                         else old(devices)[k := old(devices)[k].(state := s)]
      ensures var ends := s.Disconnected? && old(streaming) == old(devices)[k].address;
              && streaming == (if ends then NO_ADDRESS else old(streaming))
              && posted == old(posted) + if ends then [StreamingDisconnected] else []
    {
      devices := devices[k := devices[k].(state := s)];
      if devices[k].state.Disconnected? {
        if streaming == devices[k].address {
          streaming := NO_ADDRESS;
          posted := posted + [StreamingDisconnected];
        }
        devices := devices[..k] + devices[k + 1..];
      }
    }

    method StateDisconnectedHandler(e: Event, k: nat)
      requires k < |devices| && devices[k].state.Disconnected?
      requires e.ApiConnectReq? || e.ConnectingCb? || e.ConnectedCb?
      modifies this`devices, this`streaming, this`posted
      ensures Handled(useHal, e, k, old(devices), old(streaming), old(posted), devices, streaming, posted)
      ensures k < |devices| && var d := devices[k];
              if e.ConnectedCb? then d.state == Connected && d.connected == d.address
              else d.state == Pending && d.connecting == d.address
    {
      var d := devices[k];
      match e {
        case ApiConnectReq =>
          devices := devices[k := d.(connecting := d.address)];
          posted := posted + [Connect(d.address)];
          ChangeState(k, Pending);
        case ConnectingCb =>
          devices := devices[k := d.(connecting := d.address)];
          ChangeState(k, Pending);
        case ConnectedCb =>
          devices := devices[k := d.(connecting := NO_ADDRESS, connected := d.address)];
          ChangeState(k, Connected);
          posted := posted + [OpenInputStream];
        case _ =>
      }
    }

    /** The configuration of the codec, of which the address is the one the device was found by. */
    method Configure(e: Event, a: Address, k: nat)
      requires e.CodecConfig? && k < |devices| && devices[k].address == a
      modifies this`devices
      ensures |devices| == |old(devices)| && devices == old(devices)[k := devices[k]]
      ensures devices[k].(codecType := 0, codecConfig := 0) == old(devices)[k].(codecType := 0, codecConfig := 0)
      ensures devices[k].codecType == e.codecType
      ensures devices[k].codecConfig == match e.config case None => old(devices)[k].codecConfig case Some(c) => c
    {
      devices := devices[k := devices[k].(codecType := e.codecType)];
      if e.config.Some? {
        devices := devices[k := devices[k].(codecConfig := e.config.value, address := a)];
      }
    }

    method StatePendingHandler(e: Event, a: Address, k: nat)
      requires k < |devices| && devices[k].state.Pending? && devices[k].address == a
      modifies this`devices, this`streaming, this`posted
      ensures Handled(useHal, e, k, old(devices), old(streaming), old(posted), devices, streaming, posted)
    {
      var d := devices[k];
      match e {
        case ConnectedCb =>
          devices := devices[k := d.(connected := d.address, connecting := NO_ADDRESS)];
          ChangeState(k, Connected);
          posted := posted + [OpenInputStream];
        case DisconnectedCb =>
          devices := devices[k := d.(connected := NO_ADDRESS, connecting := NO_ADDRESS)];
          ChangeState(k, Disconnected);
        case CodecConfig(_, _) =>
          Configure(e, a, k);
        case _ =>
      }
    }

    method CloseIfStreaming(k: nat)
      requires k < |devices|
      modifies this`posted
      ensures posted == old(posted) + if streaming == devices[k].address then [CloseAudioStream] else []
    {
      if streaming == devices[k].address {
        posted := posted + [CloseAudioStream];
      }
    }

    /** A device starts to stream; another one that was streaming is paused. */
    method StartStreaming(a: Address, k: nat)
      requires k < |devices| && devices[k].address == a
      modifies this`streaming, this`posted
      ensures streaming == a
      ensures posted == old(posted)
                + (if old(streaming) != NO_ADDRESS && old(streaming) != a
                   then [Pause(old(streaming)), if useHal then CloseAudioStream else ReleaseControl] else [])
                + [RequestControl]
    {
      if streaming != NO_ADDRESS && streaming != devices[k].address {
        posted := posted + [Pause(streaming)];
        if !useHal {
          streaming := NO_ADDRESS;
          posted := posted + [ReleaseControl];
        } else {
          posted := posted + [CloseAudioStream];
        }
      }
      streaming := a;
      posted := posted + [RequestControl];
    }

    /** A connected device is to disconnect, or has. */
    method LeaveConnected(e: Event, k: nat)
      requires k < |devices| && devices[k].state.Connected?
      requires e.ApiDisconnectReq? || e.DisconnectedCb? || e.DisconnectingCb?
      modifies this`devices, this`streaming, this`posted
      ensures Handled(useHal, e, k, old(devices), old(streaming), old(posted), devices, streaming, posted)
    {
      CloseIfStreaming(k);
      match e {
        case ApiDisconnectReq =>
          devices := devices[k := devices[k].(connected := NO_ADDRESS, connecting := NO_ADDRESS)];
          posted := posted + [Disconnect(devices[k].address)];
          ChangeState(k, Pending);
        case DisconnectedCb =>
          devices := devices[k := devices[k].(connected := NO_ADDRESS, connecting := NO_ADDRESS)];
          ChangeState(k, Disconnected);
        case DisconnectingCb =>
          ChangeState(k, Pending);
        case _ =>
      }
    }

    method StateConnectedHandler(e: Event, a: Address, k: nat)
      requires k < |devices| && devices[k].state.Connected? && devices[k].address == a && Settled(devices[k])
      modifies this`devices, this`streaming, this`posted
      ensures Handled(useHal, e, k, old(devices), old(streaming), old(posted), devices, streaming, posted)
    {
      match e {
        case ApiDisconnectReq =>
          LeaveConnected(e, k);
        case DisconnectedCb =>
          LeaveConnected(e, k);
        case DisconnectingCb =>
          LeaveConnected(e, k);
        case CodecConfig(_, _) =>
          Configure(e, a, k);
        case AudioStarted =>
          StartStreaming(a, k);
        case FocusRequestCb =>
          StartStreaming(a, k);
        case AudioSuspended =>
          StopStreaming(a);
        case AudioStopped =>
          StopStreaming(a);
        case _ =>
      }
    }

    method StopStreaming(a: Address)
      modifies this`streaming, this`posted
      ensures streaming == if old(streaming) == a then NO_ADDRESS else old(streaming)
      ensures posted == old(posted) + if old(streaming) == a then [ReleaseControl] else []
    {
      if streaming == a {
        streaming := NO_ADDRESS;
        posted := posted + [ReleaseControl];
      }
    }

    /** The handler for the state of the device; a connection is asked for only of a disconnected one. */
    method ProcessEvent(e: Event, a: Address, k: nat)
      requires k < |devices| && devices[k].address == a
      requires if devices[k].state.Disconnected?
               then e.ApiConnectReq? || e.ConnectingCb? || e.ConnectedCb?
               else !e.ApiConnectReq? && Settled(devices[k])
      modifies this`devices, this`streaming, this`posted
      ensures Handled(useHal, e, k, old(devices), old(streaming), old(posted), devices, streaming, posted)
    {
      match devices[k].state {
        case Disconnected => StateDisconnectedHandler(e, k);
        case Pending => StatePendingHandler(e, a, k);
        case Connected => StateConnectedHandler(e, a, k);
      }
    }

    method FindDeviceByAddr(a: Address) returns (p: nat)
      ensures p == Find(devices, a)
    {
      p := 0;
      while p != |devices|
        invariant p <= |devices| && forall i :: 0 <= i < p ==> devices[i].address != a
        decreases |devices| - p
      {
        if devices[p].address == a {
          break;
        }
        p := p + 1;
      }
    }

    method Enlist(e: Event, a: Address)
      requires Valid() && !Listed(devices, a) && |devices| < maxConnections
      requires e.ApiConnectReq? || e.ConnectingCb? || e.ConnectedCb?
      modifies this`devices, this`streaming, this`posted
      ensures Valid()
      ensures Moved(maxConnections, useHal, e, a, old(devices), old(streaming), old(posted), devices, streaming, posted)
    {
      hide WantsFocus, Handled, Moved, Unique;
      ghost var ds := devices;
      var d := NewDevice(a);
      devices := devices + [d];
      ProcessEvent(e, a, |devices| - 1);
      EnlistedMoves(maxConnections, useHal, e, d, ds, old(streaming), old(posted), devices, streaming, posted);
    }

    method HandleListed(e: Event, a: Address, iter: nat)
      requires Valid() && iter < |devices| && devices[iter].address == a && !e.ApiConnectReq?
      modifies this`devices, this`streaming, this`posted
      ensures Valid()
      ensures Moved(maxConnections, useHal, e, a, old(devices), old(streaming), old(posted), devices, streaming, posted)
    {
      hide WantsFocus, Handled, Moved, Unique;
      ghost var ds := devices;
      ProcessEvent(e, a, iter);
      FoundMoves(maxConnections, useHal, e, iter, ds, old(streaming), old(posted), devices, streaming, posted);
    }

    method ConnectionManager(e: Event, a: Address)
      requires Valid() && e.IsConnectionEvent()
      modifies this`devices, this`streaming, this`posted
      ensures Valid()
      ensures Moved(maxConnections, useHal, e, a, old(devices), old(streaming),
                    old(posted) + Flushed(relay, StateOf(old(devices), a), e), devices, streaming, posted)
    {
      hide WantsFocus, Moved, Unique;
      assert posted + [] == posted;
      ListedMeansConnected(devices, a);
      match e {
        case ApiConnectReq =>
          if |devices| != maxConnections {
            var iter := FindDeviceByAddr(a);
            if iter == |devices| {
              Enlist(e, a);
              return;
            }
          }
        case ConnectingCb =>
          var done := Attach(e, a);
          if done { return; }
        case ConnectedCb =>
          var done := Attach(e, a);
          if done { return; }
        case ApiDisconnectReq =>
          var done := Detach(e, a);
          if done { return; }
        case DisconnectingCb =>
          var done := Detach(e, a);
          if done { return; }
        case DisconnectedCb =>
          var done := Detach(e, a);
          if done { return; }
        case _ =>
      }
      NothingMoves(maxConnections, useHal, e, a, devices, streaming, posted);
    }

    /** A device that connects by itself: it is listed if it is not yet and there is room. */
    method Attach(e: Event, a: Address) returns (done: bool)
      requires Valid() && (e.ConnectingCb? || e.ConnectedCb?)
      modifies this`devices, this`streaming, this`posted
      ensures Valid() && done == (Listed(old(devices), a) || |old(devices)| < maxConnections)
      ensures if done
              then Moved(maxConnections, useHal, e, a, old(devices), old(streaming), old(posted),
                         devices, streaming, posted)
              else devices == old(devices) && streaming == old(streaming) && posted == old(posted)
    {
      hide WantsFocus, Moved, Unique;
      var iter := FindDeviceByAddr(a);
      done := true;
      if iter != |devices| {
        HandleListed(e, a, iter);
      } else if |devices| < maxConnections {
        Enlist(e, a);
      } else {
        done := false;
      }
    }

    /** A device that is to disconnect: it must be listed. */
    method Detach(e: Event, a: Address) returns (done: bool)
      requires Valid() && (e.ApiDisconnectReq? || e.DisconnectingCb? || e.DisconnectedCb?)
      modifies this`devices, this`streaming, this`posted
      ensures Valid() && done == Listed(old(devices), a)
      ensures if done
              then Moved(maxConnections, useHal, e, a, old(devices), old(streaming),
                         old(posted) + Flushed(relay, StateOf(old(devices), a), e), devices, streaming, posted)
              else devices == old(devices) && streaming == old(streaming) && posted == old(posted)
    {
      hide WantsFocus, Moved, Unique;
      done := false;
      if |devices| != 0 {
        var iter := FindDeviceByAddr(a);
        if iter != |devices| {
          if relay {
            WantsFocusNext(posted, FlushRelay);
            posted := posted + [FlushRelay];
          }
          ListedMeansConnected(devices, a);
          assert posted == old(posted) + Flushed(relay, StateOf(devices, a), e);
          HandleListed(e, a, iter);
          done := true;
        }
      }
    }

    method EventManager(e: Event, a: Address)
      requires Valid()
      modifies this`devices, this`streaming, this`posted
      ensures Valid()
      ensures if started
              then Moved(maxConnections, useHal, e, a, old(devices), old(streaming),
                         old(posted) + Flushed(relay, StateOf(old(devices), a), e), devices, streaming, posted)
              else devices == old(devices) && streaming == old(streaming) && posted == old(posted)
      ensures started ==>
                && Stepped(maxConnections, e, a, old(devices), devices)
                && (forall b :: Listed(devices, b) <==> StateOf(devices, b) != Disconnected)
                && (Listed(devices, a) ==> Updated(e, DeviceOf(old(devices), a), DeviceOf(devices, a)))
                && (forall b {:trigger DeviceOf(devices, b)} ::
                      b != a ==> DeviceOf(devices, b) == DeviceOf(old(devices), b))
    {
      hide WantsFocus, Moved, Unique;
      assert posted + [] == posted;
      if !started {
        return;
      }
      ghost var was := posted + Flushed(relay, StateOf(devices, a), e);
      if e.IsConnectionEvent() {
        ConnectionManager(e, a);
      } else {
        ListedMeansConnected(devices, a);
        var iter := FindDeviceByAddr(a);
        if iter != |devices| {
          HandleListed(e, a, iter);
        } else {
          NothingMoves(maxConnections, useHal, e, a, devices, streaming, posted);
        }
      }
      StateAfter(maxConnections, useHal, e, a, old(devices), old(streaming), was, devices, streaming, posted);
    }
  }
}
